# Logger model

A Dafny model of the logger of a small C firmware library (`Logs.c` and its interface
`Interfaces/Logs.h`), with the assertion hook it calls (`CdspOsAssert`).

The logger keeps a bitmap of enabled levels. `LogEnableLevels` replaces the bitmap and
`LogGetLevels` returns it; in a debug build, each also logs the bitmap with `LOG_DEBUG`.

Every entry point first tests `level & mask != 0`:

- `LogPrintf` formats a prefix `LOG:[time:]<level in hex>:[function:] ` into a 256-byte
  buffer and writes it. It then formats the caller's message into the same buffer, writes
  that, and writes a newline.
- `LogHexData` calls the assertion hook with "buffer is not NULL". Then, if the level
  passes, it formats the buffer sixteen bytes per line and sends each line to `LogPrintf`
  as a `"%s"` argument. Each line is built in place in a line buffer:
  - the hex columns `"%02X "`,
  - spaces up to a `|` at column 48,
  - an ASCII field from column 49, where a `%` byte is written twice, a printable byte as
    itself and any other byte as `.`.

The modules follow the structure of the program:

- `LogLevels`: the level constants, the default mask, the filter and the compile-time
  switches `LOG_TIMESTAMP`, `LOG_FUNCTION_NAME` and `DEBUG_BUILD`.
- `LogMacros`: how `LOG_ERROR` … `LOG_LVL_HEX` expand in debug and release builds.
- `CFormat`: C strings, `snprintf` truncation, and the conversions `%X`, `%02X`, `%08X`
  and `%d`.
- `HexDump`: the layout of a dump line, the split into lines, and the line buffer while it
  is filled.
- `LogOutput`: what a call writes, as functions of the switches, the mask, the running time
  and the arguments, with the lemmas about those writes.
- `Logs`: the logger as a class over the source's state. The mask, the running time and the
  output sequence are fields; the log buffer and the hex-dump line buffer are arrays.
  `LogPrintf` and `LogHexData` are methods, proved to write exactly what the `LogOutput`
  functions give.

Standard output is a field `output: seq<string>` that gets one element per call to `printf`,
whether through `WriteLog` or the assertion hook.

The model follows the code in two places where it is easy to misread:

- `CdspOsAssert` prints when its condition holds, and `LogHexData` passes
  `NULL != buffer`. So every dump of a non-NULL buffer starts with `ASSERT!!! 1`, and a
  NULL buffer prints nothing at all.
- The dump line reaches `LogPrintf` as an argument of `"%s"`, so a `%` byte shows as `%%`
  in the output. The comment beside the doubling expects one `%` to print.
  `HexDump.AsciiFieldUnescapes` shows that one round of printf substitution over the ASCII
  field would give the intended rendering. The output the model describes keeps the
  doubling, as the code does (second row of the Findings).

## Model

| member | source | states |
|---|---|---|
| LogLevels.Passes | Logs.c:113 | the filter of every entry point, defined as level & mask != 0 |
| LogLevels.NamedLevelsAreDistinctBits | Interfaces/Logs.h:87-96 | ERROR, WARNING, INFO, DEBUG and FLASH are single bits, pairwise disjoint |
| LogLevels.NoneNeverPasses | Interfaces/Logs.h:87 | a message at LOG_LEVEL_NONE fails the filter whatever the mask |
| LogLevels.DefaultMask | Interfaces/Logs.h:101-105 | the default mask is 0xF: ERROR, WARNING, INFO and DEBUG pass, FLASH does not |
| LogLevels.MaxPassesEverything | Interfaces/Logs.h:98 | MAX as a level passes exactly the nonzero masks; MAX as a mask passes exactly the nonzero levels |
| LogLevels.SingleBitFilter | Logs.c:113 | a single-bit level passes a mask exactly when the mask has that bit |
| LogMacros.Expand | Interfaces/Logs.h:43-82 | the macro table: ERROR, WARNING and INFO give LogPrintf at their level; in a debug build DEBUG gives LogPrintf at DEBUG, LVL gives LogPrintf at its level and LVL_HEX gives LogHexData; in a release build the last three give nothing |
| LogMacros.CommonMacrosAlwaysPrint | Interfaces/Logs.h:43-63 | LOG_ERROR, LOG_WARNING and LOG_INFO expand to LogPrintf at their own level in every build |
| LogMacros.ReleaseDropsVerbose | Interfaces/Logs.h:77-82 | without DEBUG_BUILD, LOG_DEBUG, LOG_LVL and LOG_LVL_HEX expand to nothing |
| LogMacros.DebugRoutesEverything | Interfaces/Logs.h:49-74 | in a debug build every macro reaches an entry point, and only LOG_LVL_HEX reaches LogHexData |
| CFormat.CString | Logs.c:62-65 | the text printed for a char buffer is a prefix of it with no NUL, stopped by the first NUL |
| CFormat.CStringTerminated | Logs.c:221 | a NUL at index m ends the C string there, whatever follows |
| CFormat.Truncate | Logs.c:128 | snprintf into a buffer of `size` keeps exactly min(length, size - 1) leading characters |
| CFormat.Hex | Logs.c:132 | `%X`: at least one hex digit, with a leading 0 only for zero; defined by printing n / 16, then the digit of n mod 16 |
| CFormat.HexRoundTrip | Logs.c:132 | the digits of `%X` read back as the value |
| CFormat.LevelDigits | Logs.c:132 | `%X` of a 32-bit level has at most eight digits, which read back as the level |
| CFormat.HexFixed | Logs.c:197 | `%0<w>X` for n < 16^w: exactly w hex digits, those of n / 16 first and the digit of n mod 16 last |
| CFormat.HexFixedRoundTrip | Logs.c:197 | `%0<w>X` of a value below 16^w reads back as the value |
| CFormat.Hex2 | Logs.c:197 | `%02X` of a byte is two hex digits that read back as the byte |
| CFormat.Hex2Digits | Logs.c:197 | `%02X` of a byte is its high digit, then its low digit |
| CFormat.Hex8 | Logs.c:80 | `%08X` of a bitmap is eight hex digits that read back as the bitmap |
| CFormat.Int32 | Logs.c:130 | `%d` reads a uint32 as the two's-complement value congruent to it |
| CFormat.SignedDecimal | Logs.c:130 | `%d` of a 32-bit word: nonempty, starting with '-' exactly when the signed reading is negative; defined as the decimal of Int32(x), after a '-' when it is negative |
| CFormat.SignedDecimalRoundTrip | Logs.c:130 | what `%d` prints for the time reads back as its signed value |
| CFormat.SignedDecimalLength | Logs.c:130 | `%d` of a 32-bit word takes at most eleven characters and has no NUL |
| HexDump.IsPrint | Logs.c:204 | isprint in the C locale: 0x20 <= b <= 0x7E |
| HexDump.AsciiCell | Logs.c:198-211 | a `%` byte takes two characters of the ASCII field, any other byte one, never a NUL |
| HexDump.AsciiField | Logs.c:198-213 | the ASCII field of k bytes is k + (number of `%` bytes) characters long |
| HexDump.HexColumns | Logs.c:197 | the hex columns of k bytes are 3k characters, without NUL |
| HexDump.HexDumpLine | Logs.c:217-221 | a dump line is 49 + k + (number of `%` bytes) characters, with no NUL |
| HexDump.HexDumpLineLayout | Logs.c:188-221 | byte i sits in columns 3i..3i+2 as `%02X `; columns 3k..47 are spaces; column 48 is `|`; the ASCII field starts at 49 |
| HexDump.AsciiFieldUnescapes | Logs.c:198-203 | one round of printf substitution turns the ASCII field into printable bytes as themselves and the rest as `.` |
| HexDump.PercentShownTwice | Logs.c:200-202 | a `%` byte puts `%%` into the line that is printed |
| HexDump.SampleLine | Logs.c:195-221 | the line for 0x41, 0x25, 0x07 is "41 25 07 ", padding, then "\|A%%." |
| HexDump.HexDumpLines | Logs.c:195-232 | the lines a dump hands to LogPrintf: HexDumpLine of each chunk, in buffer order |
| HexDump.Chunks | Logs.c:195-217 | a dump has ceil(size / 16) lines, each of one to sixteen bytes |
| HexDump.ChunkAt | Logs.c:214-217 | line j holds bytes 16j up to min(16j + 16, size) |
| HexDump.ChunkSizes | Logs.c:217 | every line holds sixteen bytes except the last, which holds size mod 16 when that is nonzero |
| HexDump.ChunksCoverBuffer | Logs.c:195-232 | the lines together hold every byte once, in buffer order |
| HexDump.ByteInChunk | Logs.c:197 | byte n is at place n mod 16 of line n / 16 |
| HexDump.ChunksAppend | Logs.c:228-230 | splitting whole lines followed by more bytes splits the two parts separately |
| HexDump.HexDumpLinesAppend | Logs.c:228-230 | after the reset each line depends only on its own bytes |
| HexDump.DumpLinesGrow | Logs.c:216-231 | closing the line of bytes start..n-1 adds that line after the earlier ones |
| HexDump.OneChunkOneLine | Logs.c:217 | one to sixteen bytes make exactly one line |
| HexDump.LineNotFull | Logs.c:217 | a line started at a multiple of sixteen that has not reached the next one holds fewer than sixteen bytes |
| HexDump.StoreIndices | Logs.c:197-221 | every index the loop stores to for one chunk: 3i..3i+3 for each byte's sprintf, 49 + a (and 49 + a + 1 for `%`) for each ASCII cell, then d, 48 and 49 + a when the line closes |
| HexDump.StoresFit | Logs.c:197-221 | all stores for a chunk fit a buffer of a given length exactly when the final NUL does |
| HexDump.SourceLineBound | Logs.c:35 | with the source's 80 characters, a chunk stays inside the buffer exactly when k + (number of `%` bytes) <= 30 |
| HexDump.OverrunWitness | Logs.c:201-221 | sixteen `%` bytes make the source store its NUL at index 81 of its 80-character buffer |
| HexDump.StoresFitLine | Logs.c:35 | with 82 characters every chunk stays inside the buffer |
| HexDump.ByteColumn | Logs.c:197 | columns 3i..3i+2 of a line show byte i as two digits reading back as it, then a space |
| HexDump.HexColumnsAppend | Logs.c:197 | one more byte appends its `%02X ` column |
| HexDump.AsciiFieldAppend | Logs.c:198-213 | one more byte appends its ASCII cell |
| HexDump.BlankLine | Logs.c:188 | the buffer memset to spaces holds the empty line |
| HexDump.HexWriteStep | Logs.c:197 | sprintf at d appends a hex column and leaves the ASCII field alone |
| HexDump.AsciiWriteStep | Logs.c:198-211 | the ASCII store at 49 + a appends the byte's cell and leaves the hex columns alone |
| HexDump.PartialLineExtends | Logs.c:197-214 | formatting one more byte advances d by 3 and a by the cell's width and extends the line by that byte |
| HexDump.ClosedLineText | Logs.c:219-221 | after the closing stores, the buffer read as a C string is exactly the dump line |
| LogOutput.PrefixText | Logs.c:128-146 | the prefix format: "LOG:", the time and ":" when LOG_TIMESTAMP is on, the level and ":", the name and ":" when LOG_FUNCTION_NAME is on, then " " |
| LogOutput.Prefix | Logs.c:128-146 | the prefix of a call: the format filled with `%d` of the running time, `%X` of the level and the C string of the name |
| LogOutput.PrintfWrites | Logs.c:113-157 | one LogPrintf: nothing when the level is masked out, else the bounded prefix, the bounded message and "\n" |
| LogOutput.AssertWrites | CdspOsAbstraction.c:34-39 | the hook: "ASSERT!!! " + `%d` of arg + "\n" when the condition holds, else nothing |
| LogOutput.LineWrites | Logs.c:223-227 | the writes of LogPrintf for each dump line in turn |
| LogOutput.HexDataWrites | Logs.c:184-232 | one LogHexData: the hook's report for a non-NULL buffer, then, if the level passes, LineWrites of the buffer's dump lines |
| LogOutput.MacroWrites | Interfaces/Logs.h:43-82 | one macro call: the writes of the entry point it expands to, or nothing |
| LogOutput.Bounded | Logs.c:148-154 | what WriteLog prints after snprintf into logBuffer is a prefix of the text, below 256 characters, without NUL |
| LogOutput.AssertReportOfOne | CdspOsAbstraction.c:34-39 | the report of the hook called with 1 is "ASSERT!!! 1\n" |
| LogOutput.SplitJoin | Logs.c:128-146 | fields without ':' are read back from their ':'-joined text |
| LogOutput.PrefixTextReadsBack | Logs.c:128-146 | the prefix cut at ':' gives "LOG", the enabled fields in order, and the closing space |
| LogOutput.PrefixReadsBack | Logs.c:128-146 | the prefix's fields read back as the running time (as `%d` reads it), the level and the function name, each present exactly when its switch is on; only a printed name must be free of ':' |
| LogOutput.BoundedPlain | Logs.c:152 | a message under 256 characters without NUL passes vsnprintf unchanged |
| LogOutput.PrintfLine | Logs.c:113-157 | a call writes nothing unless its level passes; if it passes, it writes the prefix, the message cut to under 256 characters, and "\n"; the message is unchanged exactly when it is short and NUL-free |
| LogOutput.PrefixLength | Logs.c:128-146 | the prefix starts "LOG:", holds no NUL, and is at most 27 characters besides the name |
| LogOutput.PrefixWhole | Logs.c:128-148 | with a name of at most 228 characters the prefix is written whole |
| LogOutput.DefaultPrefix | Interfaces/Logs.h:33-41 | with both switches off a line starts "LOG:" + hex(level) + ": ", the hex reading back as the level |
| LogOutput.LineWritesShape | Logs.c:223-227 | the lines of a passing dump become prefix, line, newline, in order |
| LogOutput.LineWritesSnoc | Logs.c:223-227 | one more line is one more LogPrintf after the others |
| LogOutput.DumpProgress | Logs.c:216-231 | printing the line of bytes start..n-1 extends the dump's writes by that call |
| LogOutput.DumpLineFits | Logs.c:227 | a dump line passes LogPrintf's buffer unchanged |
| LogOutput.DumpLinesFit | Logs.c:227 | every line of a dump passes LogPrintf's buffer unchanged |
| LogOutput.ReportThenLines | Logs.c:184-227 | after the report, line j's writes are at 1 + 3j, 2 + 3j and 3 + 3j |
| LogOutput.HexDumpWrites | Logs.c:184-232 | a passing dump writes the report, then for each chunk j the prefix, the dump line of chunk j and "\n" |
| LogOutput.DumpShowsEveryByte | Logs.c:195-227 | every byte shows as two digits reading back as it, at its place in its line |
| LogOutput.DumpShowsText | Logs.c:198-227 | line j has `|` at 48, and its ASCII field, read as printf would, shows bytes 16j..16j+15 as printable characters or '.' |
| LogOutput.FlashPrefix | Logs.c:128-146 | with the default switches a FLASH line starts "LOG:100: " |
| LogOutput.FlashDumpSample | Logs.c:184-227 | three bytes dumped at FLASH with the default switches write the report, "LOG:100: ", the line and "\n" |
| LogOutput.HexDataMasked | Logs.c:184-186 | a masked-out dump writes only the report, and a NULL buffer writes nothing |
| LogOutput.EmptyBufferReportsOnly | Logs.c:184-195 | an empty non-NULL buffer writes the report and no line |
| LogOutput.ReleaseIsSilentForVerbose | Interfaces/Logs.h:77-82 | in a release build the verbose macros write nothing, whatever the mask |
| LogOutput.DefaultMaskInDebugBuild | Interfaces/Logs.h:101-105 | with the default mask LOG_DEBUG prints and FLASH-level messages do not; a FLASH dump prints only the report |
| Logs.SprintfHex | Logs.c:197 | sprintf("%02X ") stores two digits, a space and a NUL at d, and returns 3 |
| Logs.MemsetSpaces | Logs.c:188 | memset fills the line buffer with spaces |
| Logs.FormatByte | Logs.c:197-214 | one pass of the loop body extends the line buffer by the byte, as PartialLineExtends states |
| Logs.AddByte | Logs.c:197-214 | byte n is formatted after bytes start..n-1 of its line |
| Logs.EndLine | Logs.c:219-221 | the closing stores leave the dump line of the chunk as the buffer's C string |
| Logs.Logger.constructor | Logs.c:47-50 | the logger starts with the default mask, a 256-character log buffer and nothing written |
| Logs.Logger.AdvanceClock | CdspOsAbstraction.c:24-32 | sets the running time the next prefix reads |
| Logs.Logger.WriteLog | Logs.c:62-65 | appends the C string of its argument to the output |
| Logs.Logger.Snprintf | Logs.c:128-152 | logBuffer holds, as a C string, the text truncated to 255 characters |
| Logs.Logger.LogPrintf | Logs.c:107-162 | appends exactly PrintfWrites: nothing when masked out, else the bounded prefix, the bounded message and "\n" |
| Logs.Logger.CdspOsAssert | CdspOsAbstraction.c:34-39 | appends "ASSERT!!! " + `%d` of arg + "\n" exactly when the condition holds |
| Logs.Logger.LogHexData | Logs.c:173-234 | appends exactly HexDataWrites: the report for a non-NULL buffer, then the dump lines through LogPrintf if the level passes |
| Logs.Logger.PrintDump | Logs.c:188-232 | the loop appends LogPrintf's writes for each dump line of the buffer, in order |
| Logs.Logger.PutByte | Logs.c:196-231 | one iteration keeps the loop invariant: the buffer holds the open line, and the output holds the closed lines |
| Logs.Logger.EndOfByte | Logs.c:216-231 | the line is printed and reset when n is a multiple of 16 or the buffer has ended, and is left open otherwise |
| Logs.Logger.FlushLine | Logs.c:217-231 | printing and resetting the line extends the output by that line's LogPrintf |
| Logs.Logger.PrintLine | Logs.c:219-230 | closes the line, calls LogPrintf(level, fn, "%s", outBuf), and leaves the empty line |
| Logs.Logger.LogEnableLevels | Logs.c:78-82 | reports the new bitmap with LOG_DEBUG under the old mask, then the mask is the bitmap given |
| Logs.Logger.LogGetLevels | Logs.c:88-92 | reports the bitmap with LOG_DEBUG and returns the mask unchanged |
| Logs.Logger.Emit | Interfaces/Logs.h:43-82 | a macro call writes exactly what its expansion's entry point writes |

## Left out

- GetRunningTime, SetStartTime and gettimeofday: the running time is the field
  `runningTime`, set from outside by `AdvanceClock`. So all lines of one dump carry the same
  time, whereas the source reads the clock again for each line.
- CdspOsDelay and the rest of `CdspOsAbstraction.c`: the logger does not use them.
- Variadic formatting: `LogPrintf`'s format and arguments are given as the text they
  produce (`message`). Only the 256-byte bound and the first NUL are modelled.
- The logging semaphore: it exists only as comments in the source, and no concurrency is
  modelled.
- Standard output as a stream: it is the `output` sequence, one element per `printf`.
- `LogHexData`'s `bufferSize`: the model takes the bytes to dump as one sequence. A size
  smaller than the buffer is the same as passing the first `bufferSize` bytes, and sizes of
  2^32 or more cannot arise.
- A NULL buffer with a nonzero size: the source then reads through NULL. The model gives
  NULL no bytes.
- `isprint` in locales other than C: printable means 0x20 to 0x7E.
- Logs.Logger.LogHexData: uses an 82-character line buffer, not the source's 80, so that no
  store leaves the buffer (see Findings). What the source does past index 79 is undefined
  behaviour and is not modelled.
- Logs.Logger.LogPrintf: the function name is passed even when `LOG_FUNCTION_NAME` is off.
  The prefix then ignores it, as it is absent from the source's signature.

## Findings

| source | as written | input that shows it | evidently intended | confidence | as-written member | corrected member |
|---|---|---|---|---|---|---|
| Logs.c:35 | `outBuf` has 80 characters. A chunk of k bytes with p `%` bytes stores its closing NUL at 49 + k + p, so any k + p > 30 stores past the end | sixteen bytes of 0x25 (`%`): `%` is stored at indices 49 to 80 and the NUL at 81 | every store of a line inside `outBuf`; 82 characters suffice for any chunk | not executed | HexDump.OverrunWitness | HexDump.StoresFitLine |
| Logs.c:200-202 | the comment says `%` is doubled so that it prints; the line then reaches LogPrintf as the argument of `"%s"` (Logs.c:227), where it is not substituted again, so both characters print | one byte 0x25: the line's ASCII field is `%%` | one `%` shown for a `%` byte, which one round of substitution over the field gives | not executed | HexDump.PercentShownTwice | HexDump.AsciiFieldUnescapes |
