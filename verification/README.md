# plang, modelled and verified

plang is a Pascal compiler and the runtime its programs link against. This
project models the parts of both whose correctness takes an argument, and
proves the arguments.

* **Lowering** (`Ir`, `Lowering*`, `Quotients`, `Division`, on `Bits`). A small IR of blocks,
  conditional branches, phis and iN values, with an interpreter; Pascal
  expressions with a meaning and a trace of the operands evaluated; and the
  emission between them, as functions and as methods that change a builder.
* **Arithmetic of the runtime** (`IntPower`, `RandomGenerator`).
* **Turbo files** (`TextWindow`, `Turbo*`). File records, streams, a disk and the
  one InOutRes as a state; every operation as a function on it, and the readers,
  whose code is loops over a window and transfers into memory, as methods that
  change the fields; runs of any operations on any files. What the operating system
  answers is a parameter of each operation.
* **The message catalog** (`Utf8`, `PoText`, `Catalog*`). The line-driven reader,
  what it amounts to, and the writer whose files it reads.
* **Text input and output** (`Capture`, `IntText`, `IntReading`, `ValParse`,
  `ValMeaning`, on `Numerals`).
* **The two string runtimes** (`ShortStrings`, `ShortStringOps`, `EpStrings`, on
  `Memory` and `Relations`).
* **Source positions** (`SourceLines`, `SourceBuffers`).
* **Cleanup stacks** (`ConfArr`, `ModuleFinals`).

Where the source works by changing things, a class or a method over an array
does so too and is proved equal to a function; the theorems are about the
functions. Bytes are integers below 256; the catalog's text is characters below
256, one for each byte.

## Findings

* Turbo's `div` and `mod` are signed instructions whatever the types, so a QWord of
  2^63 or more divides wrongly: `2^63 div 2` and `2^63 mod 10`
  (`Division.QwordDivFails`, `Division.QwordModFails`). `Division.TurboDiv` and
  `Division.TurboMod` say for which pairs of values they are right, for any mixture
  of types.
* Turbo's zero check looks at the divisor at the width of the resolved type, but a
  literal or an arithmetic divisor can be wider: `i div 65536` stops with a division
  by zero (`Division.LiteralDivisorTraps`). `Division.TurboTraps` says exactly when.
* A literal of 2^63 or more is kept as a negative int64, and that is what is tested
  against a signed partner's width. A ShortInt of 5 is not less than
  18446744073709551615 (`LoweringCompare.HighLiteralFails`), and that literal divided
  by a ShortInt of 1 is 65535 (`Division.LiteralDividendFails`). The exact conditions
  are in `LoweringCompare.CappedComparison`, `Division.TurboDiv` and
  `Division.TurboMod`.
* The 64-bit instruction has no meaning for minint by -1. Turbo's `mod` is not guarded
  against it at all, and its `div` only where the resolved type has 64 bits
  (`Division.LeastModUndefined`, `Division.LongProductUndefined`, with the exact
  conditions in `Division.TurboModUndefined` and `Division.TurboDivUndefined`).
* A 64-bit unsigned operand compared with a signed one no wider is compared as
  bits: a QWord of 0 is less than a ShortInt of -1 (`LoweringCompare.CappedFails`;
  `LoweringCompare.CappedComparison` says when it is right). The sum of two Bytes is
  such an operand too: `b1 + b2 > i` is false for 2 and -1
  (`LoweringCompare.ByteSumFails`). `LoweringCompare.ComparisonRight` is the exact
  condition for all integer expressions, and `LoweringCompare.ComparisonHeld` a closed
  test for values 64 bits hold.
* `Val` refuses the least int64, since it bounds the magnitude before the sign is
  applied (`ValParse.LeastIsRefused`); `read` accepts it (`ValParse.PrintedReadsBack`,
  `IntText.ListReadsBack`).
* `Random` of a range past 2^32 + 1 wraps its product (`RandomGenerator.WideRangeWraps`),
  and past 2^32 it misses values; `RandomGenerator.RangeProportional` and
  `RandomGenerator.RandomTakesEveryValue` are exact.
* `Delete` need not take back an `Insert`, when the index was clamped or the string
  was too full (`ShortStrings.FullStringLoses`); `ShortStrings.DeleteUndoesInsert`
  says when it does. With a `Delete` first the index 0 is the trouble
  (`ShortStrings.IndexZeroDoubles`, `ShortStrings.InsertUndoesDelete`).
* With two variables on one stored file, a Rewrite or a write through one can leave the
  other's window showing a byte that is not there any more
  (`TurboFrame.SharedFileFails`, exactly when: `TurboFrame.StaleIff`).
* A block read from a file opened for writing does not report the wrong direction, as
  a typed read does (`TurboOpen.ReadRefused`).

## Model

| member | source | states |
|---|---|---|
| LoweringCorrect.EmitCorrect | lib/CodeGen/CGBinaryOps.cpp:28-96 | for every tree of Boolean connectives, comparisons of integer expressions and arithmetic over observable operands, running the emitted blocks from the insertion point reaches the final insertion point, with exactly the source's operands evaluated in the source's order and the source value in the returned IR value, provided every comparison that is evaluated keeps the order of its two values |
| LoweringMeaning.ConnectiveMeans | lib/CodeGen/CGBinaryOps.cpp:28-96 | running the code of and and and_then leaves 1 exactly when both operands are true, of or and or_else exactly when one is; the right operand goes unevaluated exactly for and_then behind a false, or_else behind a true, and under Turbo without full evaluation for and and or alike |
| LoweringCorrect.ShortCircuitSkips | lib/CodeGen/CGBinaryOps.cpp:28-53 | a left operand that decides sends control round the right operand's blocks: nothing of it is evaluated and the phi yields the deciding value from the short edge |
| LoweringCorrect.FullCorrect | lib/CodeGen/CGBinaryOps.cpp:73-91 | without short-circuiting both operands are always evaluated, left first, and the result is the connective of their truth values |
| LoweringCorrect.EmitGrows | lib/CodeGen/CGBinaryOps.cpp:28-53 | emission only appends to the insertion block and adds blocks; every other block stays as it was and the function stays open |
| LoweringCompare.ComparisonRight | lib/CodeGen/CGBinaryOps.cpp:678-758 | for any two integer expressions, arithmetic included, all six emitted comparisons are right if and only if the type they are compared at keeps the two values' order, which is told from how often each value goes over that type's range |
| LoweringMeaning.ComparisonMeans | lib/CodeGen/CGBinaryOps.cpp:678-758 | where the compared type keeps the order, the six emitted comparisons answer =, <>, <, <=, > and >= of the two values |
| LoweringCompare.SafeIsExact | lib/CodeGen/CGBinaryOps.cpp:678-758 | a tree whose comparisons are uncapped, or signed at 64 bits with operands bounded by their leaves, keeps every comparison's order in every world |
| LoweringCompare.ComparisonExact | lib/CodeGen/CGBinaryOps.cpp:678-758 | for variables of any width and signedness or literals, all six emitted comparisons agree with comparison of the mathematical values, except a wide unsigned against a signed operand no wider, and a literal of 2^63 or more that adopts a signed partner's width |
| LoweringCompare.CappedComparison | lib/CodeGen/CGBinaryOps.cpp:704-751 | in those two cases the six comparisons are right exactly when a stated test on the two values holds, one way for tied widths and the other for a narrower signed operand |
| LoweringCompare.ComparisonHeld | lib/CodeGen/CGBinaryOps.cpp:678-758 | for any two integer expressions with values between -2^63 and 2^64 the six are right if and only if a closed test on the two values and the compared type holds |
| LoweringCompare.HighLiteralFails | lib/CodeGen/CGBinaryOps.cpp:704-727 | a ShortInt of 5 is not emitted as less than 18446744073709551615, as the literal is kept as -1, fits 8 bits so and is compared as -1 |
| LoweringCompare.CappedFails | lib/CodeGen/CGBinaryOps.cpp:740-751 | a QWord of 0 is emitted as less than a ShortInt of -1 |
| LoweringCompare.ByteSumFails | lib/CodeGen/CGBinaryOps.cpp:722-751 | the sum 2 of two Bytes is not emitted as greater than an Integer of -1, since the sum is a 64-bit value of an unsigned type |
| LoweringCorrect.ArithCorrect | lib/CodeGen/CGBinaryOps.cpp:811-823 | one emitted add, sub or mul at 64 bits represents the mathematical result modulo 2^64 of the values its operands represent |
| LoweringMeaning.ArithMeans | lib/CodeGen/CGBinaryOps.cpp:811-823 | what the instruction leaves is the sum, the difference or the product, left operand first, modulo 2^64 |
| LoweringCorrect.WidensAsCoerces | lib/CodeGen/CodeGenExprs.cpp:42-70 | widening to i64 is the width conversion to 64 bits, so keeps the value an operand has by its own signedness |
| LoweringCorrect.CoerceCorrect | lib/CodeGen/CodeGenExprs.cpp:72-105 | a width conversion yields the interpreted value modulo the target width, and emits nothing when the width is already right |
| LoweringCorrect.EnsureI1Correct | lib/CodeGen/CodeGenExprs.cpp:11-28 | the i1 conversion answers whether the value is nonzero |
| LoweringBlocks.EmitPhis | lib/CodeGen/CGBinaryOps.cpp:28-53 | every phi of the emitted function has one entry for each block that branches to it, no other entry, and none twice |
| LoweringStore.StoreCorrect | lib/CodeGen/CGAssign.cpp:426-442 | the value stored into a w-bit destination is the mathematical value of the whole tree modulo 2^w |
| LoweringStore.LeavesNeverDiffer | lib/CodeGen/CGAssign.cpp:426-442 | replacing every variable of a tree, of any width and signedness, by a literal of its value stores the same bits |
| LoweringBuilder.IRBuilder.EmitShortCircuit | lib/CodeGen/CGBinaryOps.cpp:28-53 | the builder's step-by-step short circuit leaves exactly the function the specification emits |
| LoweringBuilder.IRBuilder.Emit | lib/CodeGen/CGBinaryOps.cpp:55-96 | the recursive emitter over the mutable builder leaves exactly the function and value of the specification the theorems are about |
| LoweringBuilder.IRBuilder.EmitBool | lib/CodeGen/CodeGenExprs.cpp:11-28 | emission of a Boolean operand followed by the i1 conversion, as the specification has it |
| LoweringBuilder.IRBuilder.Arithmetic | lib/CodeGen/CGBinaryOps.cpp:811-823 | both operands widened to i64, one instruction inserted, as the specification has it |
| LoweringBuilder.IRBuilder.Comparison | lib/CodeGen/CGBinaryOps.cpp:678-758 | the reassigned operand values and widths come to the unification table's width and predicate |
| LoweringBuilder.IRBuilder.ConvertForStore | lib/CodeGen/CGAssign.cpp:426-442 | the successive coercions at the store are the specification's conversion |
| Quotients.QuotIs | lib/CodeGen/CGBinaryOps.cpp:826-917 | the truncated quotient meets abs(i) - abs(j) < abs(q*j) <= abs(i), and leaves a remainder smaller than the divisor with the dividend's sign |
| Quotients.DivCases | lib/CodeGen/CGBinaryOps.cpp:905-914 | reading values of 2^63 or more as negative leaves the quotient's bits right exactly for low values, for a low dividend by a high divisor that still reads larger, and for a high dividend by 1, by -1 or by itself |
| Quotients.ModCases | lib/CodeGen/CGBinaryOps.cpp:933-940 | and the remainder's bits, for a high dividend, exactly when the divisor is itself or goes into both it and 2^64 |
| Quotients.CutDividend | lib/CodeGen/CGBinaryOps.cpp:704-727 | a high dividend that has lost part of its value never has its quotient, and its remainder exactly when the divisor goes into what was lost |
| Division.WidenedIs | lib/CodeGen/CGBinaryOps.cpp:678-758 | bringing both operands of a div or mod to their common type and then to 64 bits keeps each value modulo 2^64, but for a literal of 2^63 or more that adopts the width of a narrow signed partner, of which only the bits of the common width arrive |
| Division.TurboTraps | lib/CodeGen/CGBinaryOps.cpp:858-864 | Turbo's div and mod stop exactly when the divisor is zero modulo 2^w, where w is the width of the operation's resolved type |
| Division.FittingTraps | lib/CodeGen/CGBinaryOps.cpp:858-864 | for a variable divisor, or any divisor that fits the width, they stop exactly at zero |
| Division.LiteralDivisorTraps | lib/CodeGen/CGBinaryOps.cpp:858-864 | i div 65536 and i mod 65536 stop as divisions by zero for every Integer i |
| Division.TurboDiv | lib/CodeGen/CGBinaryOps.cpp:903-914 | for any two values 64 bits hold, signed or unsigned, of any mixture of types and literals, Turbo's div gives the quotient's bits if and only if a stated test on the operands holds |
| Division.LiteralDividendFails | lib/CodeGen/CGBinaryOps.cpp:704-727 | 18446744073709551615 div a ShortInt of 1 comes out as 65535 |
| Division.TurboDivUndefined | lib/CodeGen/CGBinaryOps.cpp:903-914 | the division executed has no meaning exactly when the resolved type is below 64 bits and the operands' 64 bits are minint and -1 |
| Division.LongProductUndefined | lib/CodeGen/CGBinaryOps.cpp:903-904 | a product of three LongInts divided by a LongInt of -1 gets there |
| Division.TurboDivExact | lib/CodeGen/CGBinaryOps.cpp:903-914 | for values of int64 the result is the truncated quotient, and the dividend for minint by -1 |
| Division.QwordDivFails | lib/CodeGen/CGBinaryOps.cpp:905-914 | 2^63 div 2 does not come out as 2^62, whether the 2 is a QWord or a Byte |
| Division.TurboMod | lib/CodeGen/CGBinaryOps.cpp:918-941 | for any two values 64 bits hold, Turbo's mod gives the remainder's bits if and only if a stated test on the operands holds |
| Division.TurboModUndefined | lib/CodeGen/CGBinaryOps.cpp:933-940 | the remainder executed has no meaning exactly when the operands' 64 bits are minint and -1, at any width |
| Division.LeastModUndefined | lib/CodeGen/CGBinaryOps.cpp:933-940 | Int64's minint mod -1 is such a case |
| Division.TurboModExact | lib/CodeGen/CGBinaryOps.cpp:918-941 | for values of int64 the result is the remainder with the dividend's sign |
| Division.QwordModFails | lib/CodeGen/CGBinaryOps.cpp:933-940 | 2^63 mod 10 is 8 and does not come out so |
| Division.StandardDiv | lib/CodeGen/CGBinaryOps.cpp:915-916 | with the one 64-bit Integer, div traps exactly on a zero divisor or on minint div -1, and is exact otherwise |
| Division.StandardMod | lib/CodeGen/CGBinaryOps.cpp:930-948 | the standard mod traps exactly on a non-positive divisor and is the least non-negative residue otherwise |
| IntPower.IPow | runtime/plang_math.cpp:79-110 | square-and-multiply returns b^e exactly when it lies in int64, (-2)^63 included, reports overflow exactly when it does not, and 0 pow 0 and negative exponents as errors |
| IntPower.SquareStep | runtime/plang_math.cpp:96-108 | a square that leaves int64 on the way only belongs to a power that leaves it too, so no intermediate trap is spurious |
| RandomGenerator.Period | runtime/plang_math.cpp:187-196 | modulo every power of two, the generator is back where it started exactly after multiples of that many steps |
| RandomGenerator.FullPeriod | runtime/plang_math.cpp:187-196 | each of the 2^k states occurs exactly once among any 2^k successive ones, from any seed |
| RandomGenerator.NoRepeat | runtime/plang_math.cpp:187-196 | two states of a run are equal exactly when their distance is a multiple of 2^k |
| RandomGenerator.Recurrence | runtime/plang_math.cpp:187-196 | every state is 1664525 times the one before plus 1013904223, modulo 2^32 |
| RandomGenerator.FirstStates | runtime/plang_math.cpp:187-196 | from seed 0 the states are 1013904223, 1196435762 and 3519870697 |
| RandomGenerator.RandomTakesEveryValue | runtime/plang_math.cpp:193-243 | over one period Random(range) takes every value of the range if and only if the range is no larger than 2^32 |
| RandomGenerator.ScaledInRange | runtime/plang_math.cpp:234-243 | Random(range) stays strictly inside the range on the range's own side of zero, for every nonzero 64-bit range but the least |
| RandomGenerator.ScaledProportional | runtime/plang_math.cpp:234-243 | from a given state the result is the exact proportion of the range if and only if the 64-bit product does not wrap |
| RandomGenerator.RangeProportional | runtime/plang_math.cpp:234-243 | from every state it is if and only if the range is no larger than 2^32 + 1 |
| RandomGenerator.WideRangeWraps | runtime/plang_math.cpp:234-243 | a range of 2^32 + 2 draws 0 from the last state, where the proportion is 2^32 |
| RandomGenerator.Generator.Seed | runtime/plang_math.cpp:256-262 | whatever RandSeed is set to, by Randomize or by the program, the draws count from there |
| RandomGenerator.Generator.Advance | runtime/plang_math.cpp:193-196 | after any number of draws since the last seed the state is the recurrence iterated that often modulo 2^32, and a draw makes it one more |
| RandomGenerator.Generator.RandomReal | runtime/plang_math.cpp:205-207 | the real drawn is the recurrence's next state over 2^32, so at least 0 and below 1 |
| RandomGenerator.Generator.RandomRange | runtime/plang_math.cpp:234-243 | the integer drawn is the recurrence's next state scaled, and a zero range draws zero and advances nothing |
| TextWindow.ReadlnLands | runtime/plang_file.cpp:1674-1685 | from any position in any text a Turbo readln leaves the file just past the first CR, LF or CRLF, or at the end, with the window on the byte there |
| TextWindow.ReadlnsCountLines | runtime/plang_file.cpp:1473-1506 | a loop of readln until Eof makes exactly as many calls as the text has CR/LF/CRLF lines |
| TextWindow.SplitLinesGood | runtime/plang_file.cpp:1653-1685 | the lines rejoin to the text, no line holds a marker, only the last may lack one, and a CR before an LF is never taken for a marker of its own |
| TextWindow.SkipWhitespaceLands | runtime/plang_file.cpp:1529-1538 | SeekEof and SeekEoln stop at the first byte that is no blank (and, for SeekEof, no marker), with the window on it |
| TurboLatch.SuppressedRun | runtime/plang_file.cpp:176-209 | over every run without an IOResult a pending error keeps its code, nothing stored changes, and the state is what the run's Assigns alone would leave |
| TurboLatch.IoResultIsEarliest | runtime/plang_sys.cpp:1231-1235 | IOResult answers the code of the earliest failure of the run before it, clears it, and the next IOResult answers 0 |
| TurboCheck.CheckedRun | runtime/plang_sys.cpp:1268-1271 | with a check behind every operation a run in which none fails leaves the state it leaves without the checks; otherwise it ends with the number of the first operation to fail, with everything else as that operation left it |
| TurboCheck.CheckStops | runtime/plang_sys.cpp:1268-1271 | a check with nothing pending changes nothing; a pending error is cleared and is what the program ends with |
| TurboCheck.Ends | runtime/plang_file.cpp:1278-1334 | apart from a check, only a block transfer of records of a negative size ends the program, with 217 and no error pending |
| TurboCheck.EndedStays | runtime/plang_sys.cpp:1268-1271 | after the end of the program no operation changes anything |
| TurboLatch.RunOwned | runtime/plang_file.cpp:539-543 | over every run, every open file holds a stream that exists, and no two files hold the same one but the standard streams |
| TurboWindow.WindowKept | runtime/plang_file.cpp:265-292 | every Turbo operation leaves the window of the file it names empty or equal to the byte at its position, but for a text write under a readable stream |
| TurboRoundTrip.TextComesBack | runtime/plang_file.cpp:875-1032 | text written after Rewrite by any number of writes, closed and reset, is all there for a reader to read from the start, with as many readlns as it has lines |
| TurboRoundTrip.BlocksComeBack | runtime/plang_file.cpp:1278-1334 | after any number of BlockWrites, with or without Close and Reset, a BlockRead of m records after a Seek to record k delivers the bytes written there as far as there are any, counts the whole records, and reports 100 exactly when it is short and the count is not asked for |
| TurboRoundTrip.ComponentsComeBack | runtime/plang_file.cpp:2772-2818 | components written one by one are delivered as they were written by typed reads from any component on; Eof, FilePos and FileSize answer in components |
| TurboText.CharsDeliver | runtime/plang_file.cpp:1983-1992 | reading character by character delivers the text, and Eof is true after exactly as many reads as are left |
| TurboText.NumbersDeliver | runtime/plang_file.cpp:1846-1873 | a loop of numeric reads until SeekEof makes one round for each token of the text, with the tokens' values in order |
| TurboFrame.OthersKept | runtime/plang_file.cpp:374-382 | as long as no two open files share what is stored, a step leaves every file it does not name its record, position and text |
| TurboFrame.RunLeaves | runtime/plang_file.cpp:374-382 | and so does a whole run that never names it |
| TurboFrame.RunWindows | runtime/plang_file.cpp:265-292 | over every such run with no text write under a window, no file's window ever shows a byte that is not at its position |
| TurboFrame.SharedFileFails | runtime/plang_file.cpp:967-987 | a Rewrite under one variable leaves the window of another variable on the same name showing a byte that is gone |
| TurboFrame.StaleIff | runtime/plang_file.cpp:265-292 | whatever is shared, a step leaves another file's window stale if and only if the window is filled and the step changes the byte at its position; the record and the position never change |
| TurboFrame.RewriteStales | runtime/plang_file.cpp:967-987 | for a Rewrite: exactly when it empties the file the window is on and the window shows a byte |
| TurboFrame.WriteStales | runtime/plang_file.cpp:2812-2818 | for a write: exactly when the byte the write puts at the window's position is another |
| TurboPrograms.TruncateAfterReset | runtime/plang_file.cpp:1232-1244 | Reset, Seek to a record and Truncate: in file mode 1 or 2 the file is cut there, or filled up with zeros, FileSize and FilePos are that record; in any other mode Truncate reports 103 and nothing changes |
| TurboPrograms.FlushAfterOpen | runtime/plang_file.cpp:1392-1413 | Flush behind a successful open reports 105 exactly after a Reset of a text, of the standard input or in another file mode than 1 and 2; otherwise, and after every Rewrite and Append, what the system answers |
| TurboPrograms.NothingToRead | runtime/plang_file.cpp:968-1032 | a text opened by Rewrite or Append is at its end for Eof, SeekEof and SeekEoln; a character or a number read from it is error 104, and nothing stored changes |
| TurboPrograms.WriteOnlyRecords | runtime/plang_file.cpp:895-913 | records opened in file mode 1 are at their end wherever they stand, and a block read delivers nothing |
| TurboPrograms.OpensFailWith | runtime/plang_file.cpp:242-262 | a missing name is 2 for Reset and Append, a directory 5 for Reset, and any other failure the number of the errno by the table: 2, 3, 4, 5, 101, 218 or itself |
| TurboPrograms.NamesFailWith | runtime/plang_file.cpp:1347-1376 | Erase and Rename of a closed file report 2 for a missing name and else the number of the errno |
| TurboPrograms.WriteFailsWith | runtime/plang_file.cpp:457-465 | a text or typed write the system refuses reports the number of the errno |
| TurboPrograms.NameCut | runtime/plang_file.cpp:804-812 | Assign and Rename record the first 511 characters of a name; Assign closes what was open |
| TurboPrograms.OpenIsKept | runtime/plang_file.cpp:1347-1376 | after any successful open, Erase and Rename report 102 and do nothing |
| TurboPrograms.NeverAssigned | runtime/plang_file.cpp:1347-1376 | so they do on a variable nothing was assigned to |
| TurboPrograms.ConsoleHasNoPosition | runtime/plang_file.cpp:876-1032 | with the empty name Reset reads stream 0 and Rewrite and Append write stream 1, whatever the system says; FilePos and FileSize are 0, Seek is error 29, Truncate 103 for input and 29 for output |
| TurboPrograms.ShortRead | runtime/plang_file.cpp:2772-2781 | a component that is not all there comes with zeros for the rest and error 100 |
| TurboPrograms.ShortWrite | runtime/plang_file.cpp:1320-1334 | a block write that stored fewer whole records than asked reports 101 unless the count is asked for |
| TurboPrograms.NothingMoves | runtime/plang_file.cpp:1278-1334 | a block transfer of no records or of records without a size does nothing, nor does the writing of an empty text |
| TurboPrograms.SeekInText | runtime/plang_file.cpp:1180-1203 | Seek in a text goes to the character counted from 0 |
| TurboPrograms.TwoCharacters | runtime/plang_file.cpp:1529-1538 | for every two bytes: Readln takes 13 10 as one marker and 13 or 10 alone as one each; SeekEof skips 9, 10, 13 and 32, SeekEoln 9 and 32 |
| TurboOpen.ResetOpens | runtime/plang_file.cpp:875-941 | Reset opens exactly what is there (standard input for no name), at the start with an empty window and the stream directions of the file mode; otherwise the file is closed with an error pending; what was open is let go and nothing stored changes. What Truncate and Flush may do then is TruncateAfterReset and FlushAfterOpen |
| TurboOpen.RewriteEmpties | runtime/plang_file.cpp:967-987 | Rewrite leaves the name there with nothing stored and every other file as it was, or the file closed with an error pending |
| TurboOpen.AppendAdds | runtime/plang_file.cpp:1009-1032 | a write after Append is added to the end of what the name held; a missing name is refused and not created |
| TurboOpen.SeekThenFilePos | runtime/plang_file.cpp:1143-1203 | FilePos answers the record Seek went to; Seek fails with 218 and stays exactly for a negative record or an offset outside int64 |
| TurboOpen.WritePastEnd | runtime/plang_file.cpp:1180-1203 | a write past the end fills the gap with zeros |
| TurboOpen.TruncateEnds | runtime/plang_file.cpp:1232-1244 | Truncate makes the position the end: what was before stays, a gap is zeros, FileSize is FilePos and Eof is true |
| TurboOpen.EraseRemoves | runtime/plang_file.cpp:1347-1354 | Erase takes the name of a closed file away, so that Reset then reports 2; an open or unassigned file is refused with 102 |
| TurboOpen.RenameMoves | runtime/plang_file.cpp:1363-1376 | after Rename a Reset without another Assign opens what the old name held, and the old name is gone |
| TurboOpen.FailingBlockWrite | runtime/plang_file.cpp:1320-1334 | a block write the system cuts short leaves the prefix, counts its whole records and reports the system's error, whether or not the count is asked for |
| TurboText.ReadlnMoves | runtime/plang_file.cpp:1674-1685 | Readln moves to the start of the next line with its first character in the window |
| TurboText.EofTells | runtime/plang_file.cpp:1473-1494 | Eof of a text is whether nothing is left, and takes nothing |
| TurboText.EolnTells | runtime/plang_file.cpp:1496-1506 | Eoln is whether the position is at a CR, an LF or the end, and takes nothing |
| TurboText.SeekStops | runtime/plang_file.cpp:1529-1554 | SeekEof and SeekEoln take exactly the blanks (and, for SeekEof, the markers) at the position and answer for the place where they stop |
| TurboText.ReadCharTakes | runtime/plang_file.cpp:1983-1992 | a character read delivers the byte at the position, markers included, and moves past it; at the end it is 26 and nothing moves |
| TurboText.ReadNumberTakes | runtime/plang_file.cpp:2016-2040 | a numeric read takes the next stretch without blank or marker whole and answers what it parses to, 0 where nothing is left, and 0 with error 106 where it does not parse |
| TurboRuntime.Runtime.Readln | runtime/plang_file.cpp:1674-1685 | the loop over the window and the stream, changed in place, comes to the specified readln and so to the start of the next line |
| TurboRuntime.Runtime.SeekEnd | runtime/plang_file.cpp:1529-1554 | the whitespace loop stops at the first character that is not skipped |
| TurboRuntime.Runtime.Eof | runtime/plang_file.cpp:1473-1494 | true exactly at the end of a text, by records where there is a record size |
| TurboRuntime.Runtime.Eoln | runtime/plang_file.cpp:1496-1506 | true exactly at a marker or the end |
| TurboRuntime.Runtime.ReadChar | runtime/plang_file.cpp:1983-1992 | the byte at the position, and the position one further |
| TurboRuntime.Runtime.ReadNumber | runtime/plang_file.cpp:2016-2040 | the skipping and collecting loops come to the specified read of a whole token |
| TurboRuntime.Runtime.BlockRead | runtime/plang_file.cpp:1278-1290 | the bytes delivered are at the start of the program's buffer and nothing behind them changed |
| TurboRuntime.Runtime.ReadBinary | runtime/plang_file.cpp:2772-2781 | the component read is in the program's buffer, zeros for what was missing; a refused read leaves the buffer alone |
| TurboRuntime.Runtime.DrainLines | runtime/plang_file.cpp:1473-1506 | the loop of Readln until Eof ends at the end of the text after one Readln for each line left |
| TurboLatch.SuppressedStep | runtime/plang_file.cpp:176-209 | with an error pending, a step that does not collect it changes nothing unless it is an Assign, answers true to every test for an end, and never touches the code or the disk |
| TurboLatch.AssignSurvivesSuppression | runtime/plang_file.cpp:804-812 | the name an Assign recorded while an error was pending is the one a Reset opens once the error is collected |
| TurboOpen.ClosedRefuses | runtime/plang_file.cpp:374-382 | every operation that needs an open file reports 103 on another and does nothing else |
| TurboOpen.CloseCloses | runtime/plang_file.cpp:1119-1126 | Close lets the stream go and keeps the name; a second Close is refused |
| TurboOpen.ZeroSizeRefused | runtime/plang_file.cpp:1071-1086 | a record size of 0 reports 2, closes what was open and keeps the size recorded before |
| TurboOpen.FlushReports | runtime/plang_file.cpp:1392-1413 | Flush reports 105 on a file open for reading only, otherwise what the system answers, and moves and stores nothing |
| TurboOpen.WriteRefused | runtime/plang_file.cpp:457-465 | text, typed and block writes to a stream opened for reading report 105 and store nothing |
| TurboOpen.ReadRefused | runtime/plang_file.cpp:457-465 | a typed read from a stream opened for writing reports 104 and delivers zeros; a block read reports only that it is short |
| Utf8.ValidIffEncoding | lib/Basic/MessageCatalog.cpp:117-141 | a byte string is accepted if and only if it is the concatenated encoding of some sequence of Unicode scalar values (sections 3 and 4 of RFC 3629) |
| Utf8.DecodingUnique | lib/Basic/MessageCatalog.cpp:117-141 | no two sequences of scalar values encode to the same bytes |
| Utf8.ValidUtf8 | lib/Basic/MessageCatalog.cpp:117-141 | the index loop answers exactly that |
| PoText.AppendQuoted | lib/Basic/MessageCatalog.cpp:82-111 | the decoding loop appends exactly the characters decoded before it stops, and says whether it stopped at a proper closing quote |
| PoText.QuotedBodyClean | lib/Basic/MessageCatalog.cpp:98-108 | whatever the line, only text without control characters but newline and tab comes out of it |
| PoText.ClosingQuote | lib/Basic/MessageCatalog.cpp:82-111 | behind the closing quote only blanks and a comment may come |
| PoText.CharacterReads | lib/Basic/MessageCatalog.cpp:82-111 | a character stands for itself unless it is below 32 or 127; of the backslash pairs n, t, the quote and the backslash are read and any other is refused |
| PoText.EscapeReadsBack | tools/plang-po/plang-po.cpp:65-78 | the reader undoes the writer's escapes if and only if the text holds no control character but newline and tab |
| PoText.DigitsUsedAre | lib/Basic/MessageCatalog.cpp:146-154 | a digit is in a format's placeholder set exactly when some %digit occurs in it |
| PoText.PlaceholderMask | lib/Basic/MessageCatalog.cpp:146-154 | the scan that steps over the digit it has read misses no placeholder |
| PoText.FindField | lib/Basic/MessageCatalog.cpp:241-253 | the scan of the header finds the value of the first line that starts with the key and goes on past it |
| PoText.SaturatedNumber | lib/Basic/MessageCatalog.cpp:281-290 | the clamping parse is the true value, or the largest 64-bit value when that is smaller |
| CatalogTheorems.OnePass | lib/Basic/MessageCatalog.cpp:333-395 | the single pass over the lines comes to the same as cutting the file into entries first and judging each by itself |
| CatalogTheorems.RefusedIff | lib/Basic/MessageCatalog.cpp:221-298 | a file is refused exactly when its header, the first entry with no msgctxt and an empty msgid, declares another charset or a newer ABI; then the catalog is unchanged |
| CatalogTheorems.LoadIsOverlay | lib/Basic/MessageCatalog.cpp:187-399 | an accepted file lays its loaded entries over the old map (or an empty one), later ones winning, and each counter of the report is the number of entries of its verdict |
| CatalogTheorems.EveryEntryCountedOnce | lib/Basic/MessageCatalog.cpp:300-330 | every entry with a msgctxt raises exactly one of the five counters |
| CatalogFates.FatesOfFile | lib/Basic/MessageCatalog.cpp:300-330 | of a written file: a spoiled message counts as malformed, one with an unknown key as unknown, one without translation as untranslated, one flagged #, fuzzy as fuzzy unless that is honoured, one that is no UTF-8 or has not the English placeholders as malformed, and any other as loaded; in use for a key is the last loaded message, else what was there |
| CatalogFates.FlagWithholds | lib/Basic/MessageCatalog.cpp:202-212 | putting a #, fuzzy line before one message moves it from loaded to fuzzy, takes it out of use, and changes nothing for any other message |
| CatalogTheorems.LoadedMessagesUsable | lib/Basic/MessageCatalog.cpp:300-330 | every message in use after a load was there before, or is non-empty valid UTF-8 with no control character but newline and tab, under a known key, with the English placeholders, from an entry not fuzzy unless honoured; that a flag line makes an entry fuzzy is FlagWithholds |
| CatalogTheorems.MergeIsUnion | lib/Basic/MessageCatalog.cpp:190-193 | loading with merge is the old map with the file's own messages over it |
| CatalogReader.PoReader.Judgement | lib/Basic/MessageCatalog.cpp:300-326 | the tests in the order they are made come to the specified verdict |
| CatalogReader.PoReader.ReadHeader | lib/Basic/MessageCatalog.cpp:240-296 | the header scan comes to the specified verdict on the file |
| CatalogReader.PoReader.FlushEntry | lib/Basic/MessageCatalog.cpp:217-331 | handing an entry on updates the map, the counters and the header flag as specified and clears the entry |
| CatalogReader.PoReader.ReadLine | lib/Basic/MessageCatalog.cpp:341-394 | one line changes the reader's fields as the specified step, whose effect over whole files FatesOfFile tells without it |
| CatalogReader.MessageCatalog.LoadText | lib/Basic/MessageCatalog.cpp:187-399 | the loop over the lines returns the specified report and leaves the specified entries: the old ones when the file is refused; FatesOfFile and FlagWithholds say what they are |
| CatalogRoundTrip.LinesReadBack | lib/Basic/MessageCatalog.cpp:333-340 | splitting undoes joining, with the empty line after the last newline |
| CatalogRoundTrip.WrittenFileReads | tools/plang-po/plang-po.cpp:150-232 | a written catalog, with retired lines, notes, fuzzy flags and spoiling lines anywhere, is read as exactly the messages written, each judged by itself; one whose header is complained of counts nothing and changes nothing |
| CatalogRoundTrip.HeaderJudged | lib/Basic/MessageCatalog.cpp:240-296 | a written header is refused exactly for a charset that is none of utf-8, utf8, ascii and us-ascii in any case, or for an ABI of 2 or more, told as at most 2^64 - 1 |
| CatalogFates.TranslationsComeBack | tools/plang-po/plang-po.cpp:150-232 | a finished translation comes back message for message and every other counter is zero |
| CatalogFates.EnglishRoundTrips | tools/plang-po/plang-po.cpp:150-232 | the English, written as its own translation, comes back unchanged for every diagnostic |
| CatalogFates.BareEntryBegins | lib/Basic/MessageCatalog.cpp:369-378 | a msgid behind a translation ends its entry and begins one that adopts the flags before it; anywhere else it goes on with the entry |
| CatalogFates.StringGoesOn | lib/Basic/MessageCatalog.cpp:384-391 | a string on a line of its own goes on with the last field begun, and spoils the entry behind none |
| CatalogFates.MarkIgnored | lib/Basic/MessageCatalog.cpp:197-197 | a byte order mark in front of the file changes nothing |
| CatalogFates.CrLfRead | lib/Basic/MessageCatalog.cpp:333-340 | lines that end in CR LF are read as those that end in LF |
| ValParse.ParseInt | runtime/plang_val.cpp:82-130 | the scanning loops report the specified code, with the literal's value on success and 0 otherwise |
| ValParse.AcceptsExactly | runtime/plang_val.cpp:82-130 | code 0 exactly for blanks, a sign, a radix prefix and digits of that radix with a magnitude up to 2^63-1, no '-' when unsigned |
| ValMeaning.ValTakes | runtime/plang_val.cpp:82-130 | told by the characters: any of space, tab, CR and LF, a sign, a prefix $ x X 0x 0X for 16, & for 8, % for 2 or none for 10, and digits of that radix in either case are taken exactly when the number is strictly between -2^63 and 2^63 and has no minus for an unsigned variable; the value is that number |
| ValParse.FirstOffence | runtime/plang_val.cpp:82-130 | a failing code is within 1 and the length plus 1, and is the first position from which no literal can be reached any more; only the '-' an unsigned variable refuses is reported one place later |
| ValParse.StillOverflows | runtime/plang_val.cpp:106-119 | once a prefix of the digits exceeds int64, every continuation of it does |
| ValParse.PrintedReadsBack | runtime/plang_val.cpp:82-130 | a number printed in radix 2, 8, 10 or 16 reads back as itself if and only if its magnitude fits, so the least int64 does not |
| ValParse.LeastIsRefused | runtime/plang_val.cpp:106-119 | the least int64, printed in any radix, is refused, and the number above it is not |
| Numerals.NumeralValue | runtime/plang_val.cpp:45-52 | a printed numeral is digits of its radix and stands for the number printed |
| Capture.WellNestedRuns | runtime/plang_io.cpp:39-82 | for every well-nested sequence of begins, outputs and ends, each end delivers exactly the output made at its own depth cut to its destination, and the rest goes where the sequence started |
| Capture.ProgramRuns | runtime/plang_io.cpp:826-903 | inner brackets leave the texts around them intact; at depth 0 output goes to standard output |
| Capture.DeliveredBytes | runtime/plang_io.cpp:837-903 | what a writestr stores, byte by byte: a string takes what it has room for, a fixed string has byte 32 behind a short text, and a Turbo string takes at most 255 bytes |
| Capture.CaptureStack.ReserveSlots | runtime/plang_io.cpp:59-72 | growing the stack of slots changes no text |
| Capture.CaptureStack.Reserve | runtime/plang_io.cpp:74-82 | growing a buffer keeps what it holds |
| Capture.CaptureStack.OutN | runtime/plang_io.cpp:157-169 | output is appended to the innermost text, or to standard output |
| Capture.CaptureStack.WriteStrBegin | runtime/plang_io.cpp:826-831 | a new empty text, whatever the slot held before |
| Capture.CaptureStack.WriteStrEnd | runtime/plang_io.cpp:837-853 | the innermost text, cut at the capacity, with its length in front; nothing behind it changes |
| Capture.CaptureStack.WriteStrEndFixed | runtime/plang_io.cpp:860-874 | the same into a fixed string, padded with spaces |
| Capture.CaptureStack.WriteStrEndShort | runtime/plang_io.cpp:886-903 | the same into a length-byte string, cut at min(cap, 255) |
| IntText.ListReadsBack | runtime/plang_io.cpp:479-489 | any list of int64 values written one per line in fields of any width up to the largest int32 reads back as it was, each read leaving the cursor at the newline that ended it |
| IntReading.ReadsAnything | runtime/plang_io.cpp:479-489 | for every input: blanks to the end read as 0; no digit behind blanks and a sign is a format error; otherwise the decimal number with its sign, plus or minus, or an error outside int64; the cursor is left behind what was taken |
| IntReading.WrittenShape | runtime/plang_io.cpp:395-402 | a number is written in decimal behind as many blanks as the width asks for, and stops the program for a width past int32 |
| IntText.FieldReadsBack | runtime/plang_io.cpp:685-687 | a number in a field before a character that is no digit is read as itself and the cursor stops there |
| IntText.InStream.InCh | runtime/plang_stream.h:58-63 | the next character or EOF, the cursor moved by one or not at all |
| IntText.InStream.Unget | runtime/plang_stream.h:65-69 | takes the cursor back by one, never past the start, and not for EOF |
| IntText.InStream.SkipBlanks | runtime/plang_io.cpp:199-205 | answers the first character that is no blank |
| IntText.InStream.ScanNumber | runtime/plang_io.cpp:234-261 | collects the sign and digits there and gives back the character after them |
| IntText.InStream.ReadI64 | runtime/plang_io.cpp:479-489 | zero past the end, an error for no digits or a value out of int64, the value otherwise |
| ShortStrings.DeleteUndoesInsert | runtime/plang_sstr.cpp:227-269 | Delete takes back an Insert into a string of any capacity if and only if nothing was inserted, or it went in whole inside the string, or the index was just behind it, or the string was full and the Insert changed nothing that the Delete would then touch |
| ShortStrings.FullStringLoses | runtime/plang_sstr.cpp:250-269 | "x" inserted at 1 into the full "abc" of capacity 3 gives "xab" and Delete then "ab"; at index 10 the string is restored |
| ShortStrings.InsertUndoesDelete | runtime/plang_sstr.cpp:187-269 | Insert puts back what Copy took before a Delete if and only if the index was at least 1, or nothing was taken, or the string is full and repeats what was taken |
| ShortStrings.IndexZeroDoubles | runtime/plang_sstr.cpp:187-269 | at index 0 the first character of "ab" comes twice, and "aaa" of capacity 3 is restored |
| ShortStrings.CopyAtPos | runtime/plang_sstr.cpp:187-219 | Copy at the position Pos found is the pattern |
| ShortStrings.PosUnique | runtime/plang_sstr.cpp:209-219 | being the first match determines Pos's answer |
| ShortStrings.InsertedIsFound | runtime/plang_sstr.cpp:209-269 | an inserted text stands at its place if and only if there was room for all of it; then Pos finds it there or before, and otherwise only an earlier match |
| ShortStrings.NotFoundInFull | runtime/plang_sstr.cpp:209-269 | behind the full "abc" nothing goes in, and Pos is 0 |
| ShortStrings.ChainIsCutOnce | runtime/plang_sstr.cpp:135-146 | a chain of concatenations cut at every step is the whole concatenation cut once |
| ShortStrings.CompareIsEquality | runtime/plang_sstr.cpp:316-327 | comparing equal is being the same string |
| ShortStrings.CompareIsOrder | runtime/plang_sstr.cpp:316-327 | the comparison is negative exactly if at the first difference the left string ends or has the smaller byte |
| ShortStrings.CompareSwaps | runtime/plang_sstr.cpp:316-327 | swapping the operands swaps the sign |
| ShortStrings.CompareChains | runtime/plang_sstr.cpp:316-327 | the order is transitive, and strict if either step is |
| ShortStrings.PrefixIsLess | runtime/plang_sstr.cpp:304-315 | a proper prefix is less |
| ShortStringOps.Assign | runtime/plang_sstr.cpp:95-102 | the destination becomes the source cut at min(cap, 255); no byte behind it changes |
| ShortStringOps.FromBytes | runtime/plang_sstr.cpp:110-116 | the destination becomes the bytes cut at the capacity |
| ShortStringOps.FromChar | runtime/plang_sstr.cpp:123-127 | the destination becomes the one character, or nothing at capacity 0 |
| ShortStringOps.Concat | runtime/plang_sstr.cpp:135-146 | the destination becomes the concatenation cut at the capacity |
| ShortStringOps.ConcatChar | runtime/plang_sstr.cpp:162-172 | the same with one character |
| ShortStringOps.CopySub | runtime/plang_sstr.cpp:187-202 | the destination becomes the clamped substring cut at the capacity |
| ShortStringOps.Pos | runtime/plang_sstr.cpp:209-219 | the least match counted from 1; 0 for none and for an empty pattern |
| ShortStringOps.Delete | runtime/plang_sstr.cpp:227-240 | the string becomes itself without the characters, or stays when the index is outside it; the move down over the gap writes nothing behind |
| ShortStringOps.Insert | runtime/plang_sstr.cpp:250-269 | the string becomes itself with the source put in, cut at the capacity, also when source and target are the same string |
| ShortStringOps.SetLength | runtime/plang_sstr.cpp:287-293 | the length byte becomes the clamped length and no character changes |
| ShortStringOps.OfChar | runtime/plang_sstr.cpp:298-305 | the destination becomes the repeated character cut at the capacity |
| ShortStringOps.Cmp | runtime/plang_sstr.cpp:316-327 | the loop answers the specified comparison |
| ShortStringOps.Test | runtime/plang_sstr.cpp:329-334 | < answers whether at the first difference the left string ends or has the smaller byte; > is that with the operands swapped, <= and >= are the negations, = and <> are about being the same string |
| ShortStringOps.SixConsistent | runtime/plang_sstr.cpp:329-334 | the six answer by the first difference, and agree under negation and under swapping the operands |
| EpStrings.EqualIsTrimmedEqual | runtime/plang_str.cpp:141-151 | strings compare equal exactly when they trim to the same string |
| EpStrings.CompareIsOrder | runtime/plang_str.cpp:141-151 | the comparison is negative exactly if at the first difference of the padded strings the left byte is the smaller |
| EpStrings.CompareSwaps | runtime/plang_str.cpp:141-151 | swapping the operands swaps the sign |
| EpStrings.CompareChains | runtime/plang_str.cpp:141-151 | the blank-padded order is transitive, and strict if either step is |
| EpStrings.AgreesWithShort | runtime/plang_str.cpp:141-151 | on strings of one length the two families order alike |
| EpStrings.SixConsistent | runtime/plang_str.cpp:153-158 | the six answer by the first difference of the strings filled up with blanks, equality by what is left without trailing blanks, and agree under negation and under swapping |
| EpStrings.EpString.Assign | runtime/plang_str.cpp:64-70 | a value too long is an error that changes nothing |
| EpStrings.EpString.Substr | runtime/plang_str.cpp:180-195 | the n characters from i on, and an error exactly when the range leaves the string |
| EpStrings.EpString.SubstrAssign | runtime/plang_str.cpp:211-231 | the range replaced and nothing else, an error exactly for a bad range or another length |
| EpStrings.EpString.TrimFrom | runtime/plang_str.cpp:233-240 | the source without its trailing blanks |
| EpStrings.EpString.Cmp | runtime/plang_str.cpp:141-151 | the loop to the longer length answers the specified comparison |
| EpStrings.EpString.Test | runtime/plang_str.cpp:153-158 | < answers whether at the first difference, byte 32 standing behind the end of each string, the left byte is the smaller; > is that swapped, <= and >= are the negations, = and <> are about the trimmed strings |
| EpStrings.SpanExact | lib/CodeGen/CGAssign.cpp:126-157 | the wrapped high-low+1 never makes a bad range look like a good one, and is the length of a good one |
| EpStrings.EpString.AssignRange | lib/CodeGen/CGAssign.cpp:126-157 | assigning to s[low..high] succeeds exactly for 1 <= low <= high <= length and a value of that length, and replaces just those characters |
| SourceLines.IndexLines | lib/Basic/SourceManager.cpp:57-65 | the one pass builds 0 and the end of every LF, CR or CRLF, a CRLF counted once |
| SourceLines.UpperBound | lib/Basic/SourceManager.cpp:139-141 | the binary search answers the first element past the value |
| SourceLines.LineOf | lib/Basic/SourceManager.cpp:133-161 | the line found is one more than the terminators that end at or before the offset, and its start is at or before the offset |
| SourceLines.LineShape | lib/Basic/SourceManager.cpp:174-190 | a line's text holds no CR and no LF and is followed by its terminator, LF, CR or CRLF, or by nothing at the end |
| SourceLines.LinesRebuild | lib/Basic/SourceManager.cpp:174-190 | the line texts with their terminators are the buffer |
| SourceBuffers.Disjoint | lib/Basic/SourceManager.cpp:23-73 | no position belongs to two buffers |
| SourceBuffers.Covered | lib/Basic/SourceManager.cpp:69-71 | every position handed out belongs to one |
| SourceBuffers.OldPositionsKeep | lib/Basic/SourceManager.cpp:69-73 | a new buffer changes the meaning of no earlier position |
| SourceBuffers.SourceManager.AddBuffer | lib/Basic/SourceManager.cpp:23-73 | the text without its byte order mark is appended with its line index, or refused, changing nothing, exactly when positions would pass 32 bits |
| SourceBuffers.SourceManager.Resolve | lib/Basic/SourceManager.cpp:105-114 | the binary search over the bases finds the buffer that holds the position, or none when none does |
| SourceBuffers.SourceManager.PositionRoundTrips | lib/Basic/SourceManager.cpp:122-131 | a file and an offset in it come back from their position |
| SourceBuffers.SourceManager.LocationRoundTrips | lib/Basic/SourceManager.cpp:122-131 | every position comes back from a file and an offset |
| SourceBuffers.SourceManager.GetFileId | lib/Basic/SourceManager.cpp:129-131 | the file that holds the position |
| SourceBuffers.SourceManager.GetPresumedLine | lib/Basic/SourceManager.cpp:133-161 | the buffer's name and one more than the terminators before the position |
| SourceBuffers.SourceManager.GetLineText | lib/Basic/SourceManager.cpp:174-190 | the text of the line the position is in |
| ConfArr.EveryRun | runtime/plang_sys.cpp:196-224 | over every interleaving of calls, returns and non-local gotos, the stack is the blocks of the live activations in push order, and every block handed out is there or freed, none twice |
| ConfArr.RunRefines | runtime/plang_sys.cpp:50-66 | marks and unwinds come step by step to what ownership by activations demands |
| ConfArr.CallRefines | lib/CodeGen/CodeGenProcs.cpp:1333-1338 | a call pushes its copies above its own mark and takes the landing mark above them |
| ConfArr.ReturnRefines | lib/CodeGen/CodeGenProcs.cpp:1641-1655 | a return frees the copies of the activation that returns and no other |
| ConfArr.GotoRefines | lib/CodeGen/LabelGotoEngine.cpp:88-143 | landing frees the copies of every activation jumped out of and none of the one landed in |
| ConfArr.UnwindIs | runtime/plang_sys.cpp:221-224 | an unwind cuts the stack at the mark and frees the rest, the latest first |
| ConfArr.ShadowStack.Push | runtime/plang_sys.cpp:204-218 | the block is on top, after the array has doubled when full |
| ConfArr.ShadowStack.UnwindTo | runtime/plang_sys.cpp:221-224 | the loop comes to the specified unwind |
| ConfArr.ShadowStack.Activate | lib/CodeGen/CodeGenProcs.cpp:1333-1338 | an activation that takes its mark, pushes its copies and unwinds to the mark leaves the stack as it was and frees just its copies, the latest first |
| ModuleFinals.ImporterRunsFirst | runtime/plang_sys.cpp:226-233 | the finaliser of a module registered later runs before that of one registered earlier |
| ModuleFinals.Finalisers.Push | runtime/plang_sys.cpp:237-265 | the finaliser is registered last |
| ModuleFinals.Finalisers.RunAll | runtime/plang_sys.cpp:268-273 | all finalisers run once in reverse order, even when one halts and enters this again |

## Left out

- LoweringCorrect.EmitCorrect: does not model unary minus, which negates at the operand's own width, nor set, string, real, char and enumeration operands, bitwise and shift operators, and div or mod inside a tree; a negative literal stands for a negated one, which the compiler gives 64 bits instead of the partner's width. Conversions the compiler emits and then does not use are not emitted.
- Division.TurboDiv: an arithmetic operand whose own value left 64 bits counts with the value its bits stand for. The division arms are modelled by what their instructions compute, not as blocks of the IR.
- IntPower.IPow: the C library's pow for real exponents is not modelled.
- RandomGenerator.ScaledInRange: the least int64 as a range is excluded, since negating it is undefined.
- RandomGenerator.Generator.RandomReal: the division is on reals; it is exact in a double.
- TurboWindow.WindowKept: a text write moves the position of a stream that can also be read without dropping the window; only typed files have such streams.
- TurboFrame.RunWindows: runs in which two variables are open on one stored file or console are excluded; StaleIff says step by step what happens to a file on disk then.
- TurboText.ReadNumberTakes: the C library's conversion of a token is a parameter.
- TurboRuntime.Runtime.BlockRead: the operations that run no loop and fill no memory (opening, closing, positions, names, writes) are functions on the state only, not methods that change it; the product of count and record size does not wrap.
- TurboOpen.WriteRefused: the formatters in front of a text write and the bytes at a caller's buffer are parameters.
- TurboRoundTrip.TextComesBack: every system call succeeds; buffering, SetTextBuf and temporary files behind unnamed variables are not modelled.
- The ISO and Extended Pascal file operations (get, put, seekread and their like), the binding table, directory and process calls.
- CatalogReader.MessageCatalog.LoadText: reading the file from disk, its size limit, and choosing a locale are not modelled; the fatal reason is a value rather than a sentence.
- A fuzzy flag before a header without a msgctxt waits for the next msgctxt entry; nothing is claimed about which entry a flag was meant for.
- CatalogRoundTrip.WrittenFileReads: the comment lines between the groups of messages are notes of a message; the fixed opening lines are a parameter. The flags, the retired lines and the spoiling lines are a translator's; the tool itself writes none, and always charset UTF-8 and ABI 1.
- Capture.CaptureStack.OutN: allocation succeeds; tracking of the console cursor is not modelled.
- IntText.InStream.ReadI64: standard input is not modelled, only the redirected buffer; nor are the readers of other types and Turbo's whole-token reader.
- ShortStringOps.Concat: source and destination are different strings, as the copies in the source require; NUL-terminated sources are covered by FromBytes.
- EpStrings.EpString.Assign: the source and destination are different strings, as the copies in the source require.
- SourceBuffers.SourceManager.GetPresumedLine: the column is not modelled; a buffer's number is its index, so the search for its address is not either.
- ConfArr.EveryRun: the program's end frees nothing more; the copying of the parameters themselves is not modelled.
- ModuleFinals.Finalisers.RunAll: what a finaliser does besides halting is not modelled.
- Real formatting and parsing, dates, the console and printer units, schema types, sets.
