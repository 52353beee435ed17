# Allocation analysis tools: a verified model of the core

This project models the analysis core of `android-analysis-tools`, a
command-line tool for Android heap-allocation dumps. The core has three parts.

- **The allocation-dump decoder** (`AllocationsParser.java`).
  - It reads the big-endian DDM allocation message:
    - a 15-byte header;
    - three length-prefixed UTF-16 string tables (class names, method names,
      file names) at `offsetToStrings`;
    - `numEntries` entry records from `messageHdrLen` on.
  - Each entry record has a stack of frame records. Entries and frames are
    padded out to the lengths the header declares.
  - Class descriptors are rewritten to dotted names (`descriptorToDot`).
  - Each frame is printed as `class.method(file:line)`.
  - The model's `Parse` returns the decoded records, and also the records
    that `parse` has printed when it stops at an error.
- **The table query engine** (`Table.java`, `FilterSpec.java`,
  `AllocRow.java`, `AggregateRow.java`, `AllocTable.java`,
  `TraceTransformableTable.java`).
  - Rows are read through a `RowAdapter`: column names, column kinds
    (NUMERIC or TEXT) and a `get(row, column)` dispatch.
  - `sortOn` is a compound, stable ordering; a leading `-` reverses one key.
  - `matching` filters rows with a `FilterSpec`.
  - `groupAndAggregate` groups rows on the string form of one column and
    computes COUNT, SUM or UNIQUE of another.
  - A table whose rows carry a stack trace can also:
    - rewrite every trace (`transformTraces`);
    - split every row into one row per frame (`splitTraces`).
- **The stack-frame language** (`StePredicates.java`,
  `TraceTransformers.java`).
  - Predicates over a frame's class and method names.
  - Trace transforms: `prune`, `keep`, `pruneAbove`, `pruneBelow`,
    `keepAbove`, `keepBelow` and `pruneRecursion`.

The printer of grouped tables (`PrettyAggregateRowOutput.java`) is modelled
too: it computes column widths and pads each row into aligned columns.

## How the model is organised

- **Modules.** There is one module per source class:
  - `AllocationsParser`, `FilterSpecs`, `Rows` (the `RowAdapter`
    abstraction), `AllocRows`, `AggregateRows`, `Tables`, `TraceTables`,
    `AllocTables`, `StePredicates`, `TraceTransformers` and
    `PrettyAggregateOutput`.
  - Two modules serve them:
    - `JavaLang` holds the JDK behaviour the core relies on: `String.compareTo`,
      `String.contains`, `Long.compare`, `Long.parseLong` and
      `Long.toString`;
    - `Orderings` holds the compound, stable sort; `Aggregation` holds
      the grouping and aggregation specification and its loops.
- **Imperative code stays imperative.**
  - `ByteBuffer` is a class with a `data`/`position` cursor.
  - `Table` is a class whose `rows` field `SortOn`, `Matching`,
    `TransformTraces` and `SplitTraces` reassign.
  - `PrettyAggregateRowOutput` is a class with the two width fields.
  - Loops in the source are `while`/`for` loops. Each is proved to compute a
    specification function of its inputs.
  - The properties are then proved about those functions.
- **Pure code is functions and lemmas.** This covers the predicates, the
  adapters, `doCompare` and the trace transforms without loops.
- **Library behaviour the code calls but does not define** is a parameter,
  the `JavaLang.Library` value:
  - `StackTraceElement.toString`;
  - the full-match test of `java.util.regex`.
- **Exceptions.** Every Java exception the core can throw is a `Result` error:
  - `BufferUnderflowException`, `IllegalArgumentException` from
    `position`, `NegativeArraySizeException` and
    `ArrayIndexOutOfBoundsException` in the decoder;
  - `IllegalArgumentException`, `IndexOutOfBoundsException`,
    `NumberFormatException`, `ClassCastException` and
    `NullPointerException` in the table engine.

## Where the code's behaviour differs from what a reader might expect

The model follows the code:

- **`keepBelow` with no matching frame returns the whole trace.** `last`
  stays -1, and the code skips `last + 1 = 0` frames.
- **`pruneRecursion` keeps the outermost frame of each run.** That is the
  highest index, because the loop walks backwards.
- **`pruneRecursion` can drop the outermost frame.** The remembered site
  starts as the sentinel `("~", "~")`, so an outermost frame with that class
  and method is dropped.
- **A NUMERIC column always parses as a number.** The row's value and `rhs`
  go through `Long.parseLong` before the operator is looked at. So
  CONTAINS and RE_MATCH on a non-numeric value of a NUMERIC column
  fail with `NumberFormatException`.
- **`sortOn` with no sort columns fails.** `order` stays null and is then
  dereferenced.
- **Entries start at `messageHdrLen`, not after the 15 header bytes.** Each
  entry takes `max(9, entryHdrLen)` bytes plus `max(8, stackFrameLen)` per
  frame (`AllocationsParser.DecodeEntryOffsets`).
- **The allocated class's index is checked after the frames are read.** It
  is looked up only when the entry is printed.
- **The thread id is printed as `(short)threadId`.** This is the signed
  reinterpretation of the unsigned 16-bit field.

## Model

| member | source | states |
|---|---|---|
| `AllocationsParser.U8At` | AllocationsParser.java:153-155 | a masked byte read is in [0, 255] |
| `AllocationsParser.I8At` | AllocationsParser.java:189 | a raw `get()` is a signed byte in [-128, 127] |
| `AllocationsParser.U16At` | AllocationsParser.java:156-160 | a masked big-endian short is in [0, 65535] |
| `AllocationsParser.ToShort` | AllocationsParser.java:223-224 | `(short)` of a u16 is in [-32768, 32767] and agrees with it modulo 2^16 |
| `AllocationsParser.I32At` | AllocationsParser.java:157 | a big-endian int read is a signed 32-bit value |
| `AllocationsParser.MaskedByteIsUnsigned` | AllocationsParser.java:153-155 | `get() & 0xff` equals the unsigned reading of the byte |
| `AllocationsParser.MaskedShortIsUnsigned` | AllocationsParser.java:156-160 | `getShort() & 0xffff` equals the unsigned big-endian reading |
| `AllocationsParser.ByteBuffer.Wrap` | AllocationsParser.java:246-247 | a fresh buffer over the dump, positioned at 0 |
| `AllocationsParser.ByteBuffer.Get` | AllocationsParser.java:153-155 | reads the signed byte at the position and advances by 1; past the end it fails with underflow and does not move |
| `AllocationsParser.ByteBuffer.GetShort` | AllocationsParser.java:209 | reads the signed big-endian short and advances by 2; underflow leaves the position |
| `AllocationsParser.ByteBuffer.GetChar` | AllocationsParser.java:40 | reads the UTF-16 unit (unsigned) and advances by 2; underflow leaves the position |
| `AllocationsParser.ByteBuffer.GetInt` | AllocationsParser.java:157 | reads the signed big-endian int and advances by 4; underflow leaves the position |
| `AllocationsParser.ByteBuffer.SetPosition` | AllocationsParser.java:166 | moves to any position within [0, limit]; anything else fails and leaves the position |
| `AllocationsParser.BracketsPairs` | AllocationsParser.java:92-94 | the array suffix for n dimensions is n copies of `[]` |
| `AllocationsParser.ReplaceCharAt` | AllocationsParser.java:61 | `replace('/', '.')` changes exactly the `/` characters and nothing else |
| `AllocationsParser.ElementToDot` | AllocationsParser.java:56-89 | the non-array part: strip `L…;` and dot it, or name a primitive letter, or leave it |
| `AllocationsParser.AppendArrayPart` | AllocationsParser.java:91-94 | appends exactly one `[]` per stripped `[` |
| `AllocationsParser.DescriptorToDot` | AllocationsParser.java:48-97 | the loops compute the dotted name of the descriptor |
| `AllocationsParser.ArrayDescriptorName` | AllocationsParser.java:48-97 | n leading `[` become n trailing `[]` after the element's name |
| `AllocationsParser.ClassDescriptorName` | AllocationsParser.java:59-62 | `L` + name + `;` loses `L` and `;` and has every `/` replaced by `.` |
| `AllocationsParser.PrimitiveDescriptorNames` | AllocationsParser.java:63-89 | C, B, Z, S, I, J, F, D name char, byte, boolean, short, int, long, float, double; `[[I` is `int[][]` |
| `AllocationsParser.SlashOnlyOutsideClassDescriptors` | AllocationsParser.java:59-89 | a `/` survives exactly when the element is not a class descriptor and had one |
| `AllocationsParser.Units` | AllocationsParser.java:37-42 | n UTF-16 units are read big-endian from consecutive 2-byte slots |
| `AllocationsParser.UnitsToString` | AllocationsParser.java:41 | `new String(char[])`: a high surrogate followed by a low one becomes one supplementary character, any other unit one character, so a decoded string has at most as many characters as units |
| `AllocationsParser.UnitsToStringChars` | AllocationsParser.java:41 | a decoded string's UTF-16 encoding is exactly the units read |
| `AllocationsParser.PairChar` | AllocationsParser.java:41 | a high and a low surrogate decode to the one character whose UTF-16 units they are |
| `AllocationsParser.UnitsToStringFails` | AllocationsParser.java:41 | the decode fails exactly when some surrogate is unpaired (a high one not followed by a low one, or a low one not preceded by a high one) |
| `AllocationsParser.UnitsToStringOfUtf16` | AllocationsParser.java:41 | decoding the UTF-16 units of any string, supplementary characters included, gives the string back |
| `AllocationsParser.StringAt` | AllocationsParser.java:37-42 | a negative len is NegativeArraySize, too few bytes BufferUnderflow; a decoded string's 2·len bytes lie inside the buffer |
| `AllocationsParser.StringAtUnits` | AllocationsParser.java:37-42 | a decoded string is made of exactly the len units read, so its `length()` is len |
| `AllocationsParser.StringAtSurrogatePair` | AllocationsParser.java:37-42 | the units D835 DCB3 decode to the single character U+1D4B3 |
| `AllocationsParser.StringAtEncodeUnits` | AllocationsParser.java:37-42 | decoding the big-endian UTF-16 encoding of any string, of `length()` units, gives the string back |
| `AllocationsParser.LengthPrefixedString` | AllocationsParser.java:110-111 | a table string advances the cursor by 4 + 2·len bytes, len being the length field read |
| `AllocationsParser.ReadTable` | AllocationsParser.java:105-114 | a table read yields exactly count strings and ends at least 4·count bytes on |
| `AllocationsParser.GetString` | AllocationsParser.java:37-42 | the loop over `getChar` returns StringAt of the position (surrogate pairs joined) and advances by 2·len |
| `AllocationsParser.ReadTableStep` | AllocationsParser.java:109-113 | a table is its first entry, dotted, before the rest of the table; an error in the first entry is the table's error |
| `AllocationsParser.ReadLengthPrefixedString` | AllocationsParser.java:110-111 | `getInt` then `getString` return the length-prefixed string and leave the cursor after it |
| `AllocationsParser.ReadTableEntry` | AllocationsParser.java:110-112 | one loop iteration reads and dots the next table string |
| `AllocationsParser.ReadStringTable` | AllocationsParser.java:105-114 | fills exactly `strings.length` slots with the table's strings and leaves the cursor after the table, or fails with the table's error |
| `AllocationsParser.ReadHeader` | AllocationsParser.java:153-160 | the header fields at offsets 0, 1, 2, 3, 5, 9, 11, 13, each u8/u16 in its unsigned range |
| `AllocationsParser.NegativeLinesFormatAlike` | AllocationsParser.java:231-236 | lines -1 and -2 (any negative line) format the same, and with a file that text is class.method`(file)` |
| `AllocationsParser.FormatStackTrace` | AllocationsParser.java:231-236 | a frame text starts with class + "." + method and ends with a closing parenthesis; `FormatStackTraceWithFile`, `NegativeLinesFormatAlike` and `MissingFileIsUnknownSource` give its three cases |
| `AllocationsParser.FormatStackTraceWithFile` | AllocationsParser.java:231-236 | with a file, a line ≥ 0 prints as class.method`(file:line)` and a negative line as class.method`(file)` |
| `AllocationsParser.MissingFileIsUnknownSource` | AllocationsParser.java:231-236 | without a file, a frame prints `(Unknown Source)` whatever its line |
| `AllocationsParser.DecodeFrame` | AllocationsParser.java:206-220 | a frame takes max(8, stackFrameLen) bytes; what it resolves and how it fails are stated by `DecodeFrameResolves` and `DecodeFrameIndexFails` |
| `AllocationsParser.DecodeFrameResolves` | AllocationsParser.java:206-215 | a decoded frame lies inside the dump, its three indices are inside their tables, and its text is `formatStackTrace` of the class, method and file they select with the signed line |
| `AllocationsParser.DecodeFrameIndexFails` | AllocationsParser.java:211-213 | a class, method or file index at or past its table fails with that index and the table length, checked in that order |
| `AllocationsParser.DecodeFrames` | AllocationsParser.java:200-221 | stackDepth frames give exactly stackDepth strings |
| `AllocationsParser.DecodeEntryHeader` | AllocationsParser.java:186-193 | the entry header takes max(9, entryHdrLen) bytes; the depth is the u8 at offset 8 |
| `AllocationsParser.DecodeEntry` | AllocationsParser.java:182-224 | entry i has exactly stackDepth frames and alloc number numEntries - i; its fields and failures are stated by `DecodeEntryResolves` and `DecodeEntryIndexFails` |
| `AllocationsParser.DecodeEntryResolves` | AllocationsParser.java:186-224 | a decoded entry has the size at offset 0, the thread id as `(short)` of the u16 at 4, the class its index at 6 selects, and the frames after the padded header |
| `AllocationsParser.DecodeEntryIndexFails` | AllocationsParser.java:200-223 | a failing frame fails the entry; only after all frames decode is the class index checked, and one past the class table fails with that index |
| `AllocationsParser.DecodeEntries` | AllocationsParser.java:182-228 | the entries from i on number numEntries - i down to 1 |
| `AllocationsParser.DecodeFramesLength` | AllocationsParser.java:200-221 | n frames occupy exactly n · max(8, stackFrameLen) bytes |
| `AllocationsParser.DecodeEntryLength` | AllocationsParser.java:186-221 | an entry occupies max(9, entryHdrLen) + depth · max(8, stackFrameLen) bytes |
| `AllocationsParser.DecodeTables` | AllocationsParser.java:166-174 | the three tables have exactly the lengths the header declares |
| `AllocationsParser.Decode` | AllocationsParser.java:145-229 | a decoded dump has numEntries entries, numbered numEntries down to 1; `DecodeEntryOffsets` gives where each is read |
| `AllocationsParser.EntryStarts` | AllocationsParser.java:180-221 | the offsets the entry loop reads entries at: the first is the start given, then the end of each entry that decodes |
| `AllocationsParser.DecodeEntriesAt` | AllocationsParser.java:182-221 | decoded entry k is DecodeEntry at start k, and entry k + 1 starts max(9, entryHdrLen) + depth·max(8, stackFrameLen) bytes after entry k |
| `AllocationsParser.DecodeEntryOffsets` | AllocationsParser.java:180-221 | a dump's entries are read from messageHdrLen on, not from the end of the 15 header bytes: entry k of `Decode` is DecodeEntry at start k, and each start follows from the strides of the entry before it |
| `AllocationsParser.PrintedEntries` | AllocationsParser.java:182-228 | the entries printed from entry i on, stopping at the first that fails; never more than the entries left |
| `AllocationsParser.PrintedEntriesDecoded` | AllocationsParser.java:182-228 | the printed entries are the decoded ones when all decode, fewer than the rest otherwise, numbered down from numEntries - i |
| `AllocationsParser.PrintedIsDecoded` | AllocationsParser.java:145-229 | a well-formed dump prints exactly its decoded entries; a failing one prints only the entries before the failure, numbered numEntries down |
| `AllocationsParser.ReadFrame` | AllocationsParser.java:206-220 | reads four shorts, resolves the three indices, formats the frame and skips the padding: exactly `DecodeFrame`, so `DecodeFrameResolves` and `DecodeFrameIndexFails` hold of it |
| `AllocationsParser.ReadNextFrame` | AllocationsParser.java:200-221 | one pass of the frame loop: an Ok frame is the head of `DecodeFrames` with n frames to go, in front of the remaining n-1; an error is the error of the whole frame list |
| `AllocationsParser.ReadFrames` | AllocationsParser.java:195-221 | the frame loop computes the frames of the entry and ends after the last |
| `AllocationsParser.ReadEntryHeader` | AllocationsParser.java:186-193 | reads size, thread, class index and depth and skips to max(9, entryHdrLen) |
| `AllocationsParser.ReadEntry` | AllocationsParser.java:183-224 | one entry, with the class index checked after the frames |
| `AllocationsParser.ReadHeaderFields` | AllocationsParser.java:153-160 | the eight header reads, or underflow for a dump shorter than 15 bytes |
| `AllocationsParser.ReadStringTables` | AllocationsParser.java:166-174 | seeks to offsetToStrings and reads the three tables in order |
| `AllocationsParser.ReadEntries` | AllocationsParser.java:180-228 | the entry loop returns the decoded entries or the first entry's error, and the entries printed before it |
| `AllocationsParser.Parse` | AllocationsParser.java:145-229 | the cursor-driven parse returns exactly the decoded entries or the decoder's first error, together with the entries printed before it stopped |
| `JavaLang.CompareTo` | src/main/java/com/madvay/tools/android/perf/common/Table.java:180 | `String.compareTo` compares UTF-16 units and is 0 exactly on equal strings |
| `JavaLang.CharUnits` | src/main/java/com/madvay/tools/android/perf/common/Table.java:180 | a character is one UTF-16 unit below U+10000 and a high then a low surrogate above it |
| `JavaLang.Utf16Injective` | src/main/java/com/madvay/tools/android/perf/common/Table.java:180 | two strings with the same UTF-16 units are equal |
| `JavaLang.Utf16` | src/main/java/com/madvay/tools/android/perf/common/Table.java:180 | a String's chars, the UTF-16 units of the text, never fewer than its characters; `Utf16Concat`, `Utf16OfBmp` and `Utf16Injective` prove its laws |
| `JavaLang.JavaLength` | src/main/java/com/madvay/tools/android/perf/common/PrettyAggregateRowOutput.java:32-33 | `String.length()`: the number of UTF-16 units; `Utf16OfBmp` shows it is the character count when no character is above U+FFFF |
| `JavaLang.UnitCompare` | src/main/java/com/madvay/tools/android/perf/common/Table.java:180 | the unit-by-unit comparison loop is 0 exactly on equal unit sequences |
| `JavaLang.UnitCompareAntisymmetric` | src/main/java/com/madvay/tools/android/perf/common/Table.java:180 | swapping the unit sequences negates the comparison |
| `JavaLang.UnitCompareTransitive` | src/main/java/com/madvay/tools/android/perf/common/Table.java:148-151 | the unit order is transitive, strictly where either step is strict |
| `JavaLang.SupplementarySortsBySurrogate` | src/main/java/com/madvay/tools/android/perf/common/Table.java:180 | a character above U+FFFF sorts before U+FFFD, as its high surrogate does |
| `JavaLang.Utf16Concat` | src/main/java/com/madvay/tools/android/perf/common/PrettyAggregateRowOutput.java:30-34 | the UTF-16 units of a concatenation are the units of the parts |
| `JavaLang.Utf16OfBmp` | src/main/java/com/madvay/tools/android/perf/common/PrettyAggregateRowOutput.java:44-46 | text below U+10000 has one unit per character, the character itself |
| `JavaLang.CompareToAntisymmetric` | src/main/java/com/madvay/tools/android/perf/common/Table.java:180 | swapping the strings negates the comparison |
| `JavaLang.CompareToTransitive` | src/main/java/com/madvay/tools/android/perf/common/Table.java:148-151 | the string order is transitive, strictly where either step is strict |
| `JavaLang.LongCompare` | src/main/java/com/madvay/tools/android/perf/common/Table.java:176 | `Long.compare` is negative, zero, positive exactly for <, =, > |
| `JavaLang.ParseLong` | src/main/java/com/madvay/tools/android/perf/common/Table.java:174-175 | a parsed long is within the 64-bit range (ASCII digits only) |
| `JavaLang.ParseLongOfIntToString` | src/main/java/com/madvay/tools/android/perf/common/Table.java:174 | parsing the decimal form of a long gives the long back |
| `JavaLang.IntToString` | src/main/java/com/madvay/tools/android/perf/common/PrettyAggregateRowOutput.java:49 | `Long.toString` and `String.valueOf`: a non-empty decimal form, which `ParseLongOfIntToString` parses back to the number |
| `JavaLang.ContainsInfix` | src/main/java/com/madvay/tools/android/perf/common/StePredicates.java:108-115 | a needle inside a part of a string is inside the whole string |
| `JavaLang.Contains` | src/main/java/com/madvay/tools/android/perf/common/StePredicates.java:32 | `String.contains`: the needle occurs at some index; `ContainsItself` and `ContainsInfix` prove its laws |
| `JavaLang.StartsWith` | src/main/java/com/madvay/tools/android/perf/common/StePredicates.java:43 | `String.startsWith`: the string begins with the prefix; `UnderPackageShape` and `InPackageShape` use it for the package predicates |
| `Rows.IndexOf` | src/main/java/com/madvay/tools/android/perf/common/Table.java:171 | `indexOf` is the first position holding the name, and absent (-1) exactly when the name is missing |
| `Rows.ColumnType` | src/main/java/com/madvay/tools/android/perf/common/Table.java:86-89 | `types.get(columns.indexOf(c))` exists exactly when both lookups succeed, and is that kind |
| `Rows.NumbersRoundTrip` | src/main/java/com/madvay/tools/android/perf/common/Table.java:170-174 | `parseLong(toString())` of a numeric column's value is the value |
| `Rows.ValueToString` | src/main/java/com/madvay/tools/android/perf/common/Table.java:169-170 | `Object.toString` of a column value: a number's decimal form, a string itself, a trace's bracketed list; `NumbersRoundTrip` proves a number parses back |
| `Rows.FramesToString` | src/main/java/com/madvay/tools/android/perf/common/Table.java:169-170 | `List.toString` of a trace: bracketed, and `[]` for an empty trace |
| `Rows.NaturalCompare` | src/main/java/com/madvay/tools/android/perf/common/Table.java:148-151 | the natural order is 0 exactly on equal values and is numeric order on numbers |
| `Rows.NaturalCompareAntisymmetric` | src/main/java/com/madvay/tools/android/perf/common/Table.java:148-151 | swapping the values flips the sign |
| `Rows.NaturalCompareTransitive` | src/main/java/com/madvay/tools/android/perf/common/Table.java:148-151 | the natural order is transitive |
| `Orderings.ParseSortKey` | src/main/java/com/madvay/tools/android/perf/common/Table.java:54-57 | a key is descending exactly when its spec starts with `-`, and its column is the spec without the `-` |
| `Orderings.ReverseFlipsSign` | src/main/java/com/madvay/tools/android/perf/common/Table.java:56-58 | `reverse()` turns before into after and keeps ties |
| `Orderings.CompoundCompare` | src/main/java/com/madvay/tools/android/perf/common/Table.java:59-63 | a compound comparison that succeeds is 0 exactly when every key ties; when it fails is stated by `CompoundCompareFails` |
| `Orderings.CompoundCompareFails` | src/main/java/com/madvay/tools/android/perf/common/Table.java:59-63 | the compound comparison fails exactly when the rows tie on keys 0..k-1 and key k of either cannot be read or compared; later keys are never read |
| `Orderings.CompoundAntisymmetric` | src/main/java/com/madvay/tools/android/perf/common/Table.java:59-63 | when both directions succeed, swapping the rows flips the compound comparison |
| `Orderings.CompoundTransitive` | src/main/java/com/madvay/tools/android/perf/common/Table.java:59-63 | when the three comparisons succeed, the strict compound order is transitive |
| `Orderings.Clash` | src/main/java/com/madvay/tools/android/perf/common/Table.java:65 | no error is found exactly when every pair of rows compares without failing |
| `Orderings.RowClash` | src/main/java/com/madvay/tools/android/perf/common/Table.java:65 | no error is found exactly when row x compares without failing with every earlier row |
| `Orderings.ClashFreeSortable` | src/main/java/com/madvay/tools/android/perf/common/Table.java:65 | the error search finds nothing exactly when every two distinct rows can be compared |
| `Orderings.SwapClash` | src/main/java/com/madvay/tools/android/perf/common/Table.java:59-63 | a pair that cannot be compared cannot be compared the other way round either |
| `Orderings.BeforeTotal` | src/main/java/com/madvay/tools/android/perf/common/Table.java:65 | with input position breaking ties, any two rows are ordered one way and never both |
| `Orderings.BeforeTransitive` | src/main/java/com/madvay/tools/android/perf/common/Table.java:65 | that order is transitive |
| `Orderings.Insert` | src/main/java/com/madvay/tools/android/perf/common/Table.java:65 | inserting a row index adds exactly that index |
| `Orderings.SortIndices` | src/main/java/com/madvay/tools/android/perf/common/Table.java:65 | the sorted indices are a permutation of 0..n-1 |
| `Orderings.Range` | src/main/java/com/madvay/tools/android/perf/common/Table.java:65 | the input order 0..n-1 |
| `Orderings.InsertSorted` | src/main/java/com/madvay/tools/android/perf/common/Table.java:65 | inserting into a sorted list keeps it sorted |
| `Orderings.SortIndicesSorted` | src/main/java/com/madvay/tools/android/perf/common/Table.java:65 | the sorted indices are in the stable order |
| `Orderings.SortIndicesPermutation` | src/main/java/com/madvay/tools/android/perf/common/Table.java:65 | every input index appears, and nothing else |
| `Orderings.SortIndicesOrdered` | src/main/java/com/madvay/tools/android/perf/common/Table.java:65 | rows come out in compound order, and equal rows keep their input order |
| `Orderings.SortedUnique` | src/main/java/com/madvay/tools/android/perf/common/Table.java:65 | there is only one stable sorted order of a set of rows, so any stable sort gives this result |
| `Tables.SortKeys` | src/main/java/com/madvay/tools/android/perf/common/Table.java:53-58 | one key per column spec, in spec order, the first being primary |
| `Tables.RowKeys` | src/main/java/com/madvay/tools/android/perf/common/Table.java:148-150 | a row's key k is its `get` value for that column; a column the row lacks is an illegal-argument error and a trace is a class-cast error |
| `Tables.KeyTable` | src/main/java/com/madvay/tools/android/perf/common/Table.java:148-150 | every row's keys, in row order, one per sort key |
| `Tables.SortedCopy` | src/main/java/com/madvay/tools/android/perf/common/Table.java:65 | `sortedCopy` keeps the number of rows; permutation, order and stability are stated by `SortedOnIsStableSort` |
| `Tables.SortedOn` | src/main/java/com/madvay/tools/android/perf/common/Table.java:51-66 | no columns is a null dereference, and a successful sort keeps the number of rows; the two lemmas after it state the rest |
| `Tables.SortedOnIsStableSort` | src/main/java/com/madvay/tools/android/perf/common/Table.java:51-65 | `sortOn` returns a permutation of the rows in compound order, with rows tied on every key kept in input order |
| `Tables.SortedOnFails` | src/main/java/com/madvay/tools/android/perf/common/Table.java:51-65 | `sortOn` fails exactly when there are no columns or two rows tie on keys 0..k-1 and key k of either cannot be read or compared |
| `Tables.DistinctFirstKeyDecides` | src/main/java/com/madvay/tools/android/perf/common/Table.java:59-65 | when the first sort column holds distinct numbers, the sort succeeds whatever the later columns hold |
| `Tables.SortedOnEdges` | src/main/java/com/madvay/tools/android/perf/common/Table.java:51-65 | no sort columns fails with a null dereference; fewer than two rows come back as they are |
| `Tables.FilterRows` | src/main/java/com/madvay/tools/android/perf/common/Table.java:68-71 | filtering never adds rows |
| `Tables.NegationComplements` | src/main/java/com/madvay/tools/android/perf/common/Table.java:187-208 | NOT_EQUALS, NOT_RE_MATCH and NOT_CONTAINS are the exact negations of EQUALS, RE_MATCH and CONTAINS, failing on the same rows |
| `Tables.FilterMembers` | src/main/java/com/madvay/tools/android/perf/common/Table.java:68-71 | a row is kept exactly when it is in the table and satisfies the filter |
| `Tables.FilterDistributes` | src/main/java/com/madvay/tools/android/perf/common/Table.java:68-71 | filtering a concatenation is concatenating the filtered parts, so the original order is kept |
| `Tables.FilterIdempotent` | src/main/java/com/madvay/tools/android/perf/common/Table.java:68-71 | applying the same filter twice is applying it once |
| `Tables.FilterPartition` | src/main/java/com/madvay/tools/android/perf/common/Table.java:68-71 | a filter and its negation split the rows between them |
| `Tables.NumericFilter` | src/main/java/com/madvay/tools/android/perf/common/Table.java:173-177 | on a NUMERIC column the comparison operators compare the values as longs |
| `Tables.NumericNeedsNumbers` | src/main/java/com/madvay/tools/android/perf/common/Table.java:173-175 | on a NUMERIC column a non-numeric value or rhs fails with a number format error, whatever the operator |
| `Tables.TextFilter` | src/main/java/com/madvay/tools/android/perf/common/Table.java:179-180 | on a TEXT column: EQUALS is string equality, LESS is `compareTo` < 0, CONTAINS is substring, RE_MATCH is full match |
| `Tables.DoCompare` | src/main/java/com/madvay/tools/android/perf/common/Table.java:186-212 | the operator switch; its cases are stated by `NegationComplements`, `NumericFilter` and `TextFilter` |
| `Tables.RowMatches` | src/main/java/com/madvay/tools/android/perf/common/Table.java:166-184 | the filter test of one row; its cases and errors are stated by `NumericFilter`, `NumericNeedsNumbers` and `TextFilter` |
| `Tables.Table.constructor` | src/main/java/com/madvay/tools/android/perf/common/Table.java:36-38 | the table holds the rows given |
| `Tables.Table.SortOn` | src/main/java/com/madvay/tools/android/perf/common/Table.java:51-66 | the rows become the stable compound sort, or stay as they were when it fails |
| `Tables.Table.Matching` | src/main/java/com/madvay/tools/android/perf/common/Table.java:68-71 | the rows become the filtered rows, or stay as they were when the filter throws |
| `Tables.Table.GroupAndAggregate` | src/main/java/com/madvay/tools/android/perf/common/Table.java:82-137 | a fresh table of the aggregate rows, whose group column is NUMERIC exactly when the source column is; errors are passed on |
| `Aggregation.ColumnKind` | src/main/java/com/madvay/tools/android/perf/common/Table.java:86-89 | a column's kind, or an index error for a column the adapter does not have |
| `Aggregation.GroupKeys` | src/main/java/com/madvay/tools/android/perf/common/Table.java:90-95 | one key per row: its group column's `toString()` |
| `Aggregation.Distinct` | src/main/java/com/madvay/tools/android/perf/common/Table.java:90-96 | the map's keys: each key string once, no others, in order of first occurrence |
| `Aggregation.Group` | src/main/java/com/madvay/tools/android/perf/common/Table.java:90-96 | a key's group is drawn from the rows; exactly which rows is stated by `GroupRows` |
| `Aggregation.KeyPositions` | src/main/java/com/madvay/tools/android/perf/common/Table.java:90-95 | the positions holding a key: each holds it, they increase, and none is missed |
| `Aggregation.GroupRows` | src/main/java/com/madvay/tools/android/perf/common/Table.java:90-96 | a key's group is exactly the rows whose key it is, in row order |
| `Aggregation.SumGroup` | src/main/java/com/madvay/tools/android/perf/common/Table.java:103-109 | the `l +=` loop computes the SUM aggregate, or the first parse error |
| `Aggregation.UniqueGroup` | src/main/java/com/madvay/tools/android/perf/common/Table.java:110-116 | the `set.add` loop computes the UNIQUE aggregate |
| `Aggregation.AggregateGroup` | src/main/java/com/madvay/tools/android/perf/common/Table.java:100-118 | the switch computes the aggregate the type names |
| `Aggregation.AggregateAll` | src/main/java/com/madvay/tools/android/perf/common/Table.java:121-127 | one aggregate row per key, in key order, or the first group's error |
| `Aggregation.SumWeights` | src/main/java/com/madvay/tools/android/perf/common/Table.java:103-109 | the SUM loop over one group; `SumWeightsErrPersists` keeps its first error and `GroupSum` equates it with the sum of the weights of the rows with the group's key |
| `Aggregation.WeightStrings` | src/main/java/com/madvay/tools/android/perf/common/Table.java:110-116 | the UNIQUE loop's set of weight strings; `WeightStringsBounds` puts its size between 1 and the group size |
| `Aggregation.Aggregate` | src/main/java/com/madvay/tools/android/perf/common/Table.java:99-118 | transformEntry: COUNT is the group size, SUM the weights' sum, UNIQUE the number of distinct weight strings; `CountsAddUp`, `SumsAddUp` and `UniqueBounds` state these over the whole table |
| `Aggregation.AggregateGroups` | src/main/java/com/madvay/tools/android/perf/common/Table.java:96-127 | one aggregate row per distinct key, in key order, or the first failing group's error; `AggregateGroupsShape` proves the shape and `AggregateGroupsErrPersists` the error |
| `Aggregation.GroupAndAggregate` | src/main/java/com/madvay/tools/android/perf/common/Table.java:82-137 | groupAndAggregate: column lookup, keying, then aggregation; `OneRowPerKey`, `CountsAddUp`, `SumsAddUp`, `UniqueBounds` and `UnknownColumnFails` state its result |
| `Aggregation.SumWeightsErrPersists` | src/main/java/com/madvay/tools/android/perf/common/Table.java:104-107 | once a weight fails to parse, the SUM fails with that error |
| `Aggregation.WeightStringsErrPersists` | src/main/java/com/madvay/tools/android/perf/common/Table.java:111-114 | once a weight fails, the UNIQUE fails with that error |
| `Aggregation.AggregateGroupsErrPersists` | src/main/java/com/madvay/tools/android/perf/common/Table.java:121-127 | once a group fails, the whole aggregation fails with that error |
| `Aggregation.GroupsPartition` | src/main/java/com/madvay/tools/android/perf/common/Table.java:90-95 | summing a per-row quantity group by group gives its sum over all rows |
| `Aggregation.GroupCount` | src/main/java/com/madvay/tools/android/perf/common/Table.java:101-102 | a group's size is the number of rows with its key |
| `Aggregation.GroupSum` | src/main/java/com/madvay/tools/android/perf/common/Table.java:103-108 | a group's SUM is the sum of the weights of the rows with its key |
| `Aggregation.AggregateGroupsShape` | src/main/java/com/madvay/tools/android/perf/common/Table.java:121-127 | output row j is key j with the aggregate of key j's group |
| `Aggregation.TotalOfGroups` | src/main/java/com/madvay/tools/android/perf/common/Table.java:121-127 | the output weights add up to the per-key totals |
| `Aggregation.UnknownColumnFails` | src/main/java/com/madvay/tools/android/perf/common/Table.java:86-89 | an unknown group or weight column fails before any grouping |
| `Aggregation.OneRowPerKey` | src/main/java/com/madvay/tools/android/perf/common/Table.java:82-137 | one output row per distinct key string, all groups distinct; group is NUMERIC exactly when the source column is |
| `Aggregation.CountsAddUp` | src/main/java/com/madvay/tools/android/perf/common/Table.java:101-102 | the COUNT weights sum to the number of rows |
| `Aggregation.SumsAddUp` | src/main/java/com/madvay/tools/android/perf/common/Table.java:103-108 | the SUM weights sum to the total weight of all rows |
| `Aggregation.WeightStringsBounds` | src/main/java/com/madvay/tools/android/perf/common/Table.java:110-115 | a group has at least one and at most its size distinct weight strings |
| `Aggregation.GroupOfPresentKey` | src/main/java/com/madvay/tools/android/perf/common/Table.java:90-95 | every key's group is non-empty |
| `Aggregation.UniqueBounds` | src/main/java/com/madvay/tools/android/perf/common/Table.java:110-115 | every UNIQUE weight lies between 1 and its group's COUNT |
| `AllocRows.Get` | src/main/java/com/madvay/tools/android/perf/allocs/AllocRow.java:53-67 | `get` knows exactly the five columns, and the non-trace ones give a number or a string |
| `AllocRows.AdapterKinds` | src/main/java/com/madvay/tools/android/perf/allocs/AllocRow.java:46-69 | of the shared adapter `AllocRows.Adapter` (the constants `Columns` and `Types` with `Get`): a column has a kind exactly when `get` knows it; id, size and thread are the NUMERIC ones |
| `AggregateRows.Types` | src/main/java/com/madvay/tools/android/perf/common/AggregateRow.java:36-39 | one kind per column |
| `AggregateRows.Adapter` | src/main/java/com/madvay/tools/android/perf/common/AggregateRow.java:34-52 | the adapter of a grouped table: columns weight and group, their kinds, and `get`; `AggregateRows.AdapterKinds` states its column kinds |
| `AggregateRows.Get` | src/main/java/com/madvay/tools/android/perf/common/AggregateRow.java:42-50 | `get` knows exactly `weight` and `group` |
| `AggregateRows.AdapterKinds` | src/main/java/com/madvay/tools/android/perf/common/AggregateRow.java:36-39 | weight is NUMERIC, group is NUMERIC exactly when groupNumeric, and no other column has a kind |
| `AllocTables.AccessLaws` | src/main/java/com/madvay/tools/android/perf/allocs/AllocTable.java:41-44 | `newRowWithTrace` carries exactly the trace given and keeps id, class, size and thread |
| `AllocTables.NewRowWithTrace` | src/main/java/com/madvay/tools/android/perf/allocs/AllocTable.java:41-44 | the new row is the input allocation with the given trace |
| `AllocTables.SortOnUniqueIdsSucceeds` | src/main/java/com/madvay/tools/android/perf/common/Table.java:51-65 | sorting allocations with distinct ids on `id` then any other columns succeeds, since the later columns are never read |
| `AllocTables.NewAllocTable` | src/main/java/com/madvay/tools/android/perf/allocs/AllocTable.java:30-39 | a fresh table over the rows given, whose adapter is the one shared AllocRow adapter |
| `AllocTables.TransformKeepsAllocations` | src/main/java/com/madvay/tools/android/perf/common/TraceTransformableTable.java:36-43 | transforming keeps every allocation, in order, each with its trace transformed |
| `AllocTables.SplitKeepsAllocations` | src/main/java/com/madvay/tools/android/perf/common/TraceTransformableTable.java:45-57 | each split row is an input allocation carrying one frame of its own trace, and there are as many as frames |
| `TraceTables.TransformTraces` | src/main/java/com/madvay/tools/android/perf/common/TraceTransformableTable.java:36-43 | the rows become row i rebuilt with `tt(trace_i)` |
| `TraceTables.TransformedTraces` | src/main/java/com/madvay/tools/android/perf/common/TraceTransformableTable.java:36-43 | the same number of rows, each carrying its transformed trace |
| `TraceTables.TransformedFramesFromRow` | src/main/java/com/madvay/tools/android/perf/common/TraceTransformableTable.java:36-43 | a transformed trace holds only frames of the row's own trace |
| `TraceTables.TransformTwice` | src/main/java/com/madvay/tools/android/perf/common/TraceTransformableTable.java:36-43 | transforming twice with the same transform is transforming once |
| `TraceTables.SplitRow` | src/main/java/com/madvay/tools/android/perf/common/TraceTransformableTable.java:50-54 | the inner loop makes one copy of the row per frame, in trace order |
| `TraceTables.SplitTraces` | src/main/java/com/madvay/tools/android/perf/common/TraceTransformableTable.java:45-57 | the rows become the per-row lists concatenated in row order |
| `TraceTables.SplitCount` | src/main/java/com/madvay/tools/android/perf/common/TraceTransformableTable.java:45-57 | splitting gives exactly as many rows as there are frames in all traces, so rows with empty traces disappear |
| `TraceTables.SplitKeepsFrames` | src/main/java/com/madvay/tools/android/perf/common/TraceTransformableTable.java:45-57 | the split rows' frames, read in order, are the input's frames in row and trace order |
| `TraceTables.SplitRowsShape` | src/main/java/com/madvay/tools/android/perf/common/TraceTransformableTable.java:50-54 | every split row is an input row with a one-frame trace taken from that row's trace |
| `TraceTables.SplitTwice` | src/main/java/com/madvay/tools/android/perf/common/TraceTransformableTable.java:45-57 | splitting a split table changes nothing |
| `StePredicates.ContainsDot` | src/main/java/com/madvay/tools/android/perf/common/StePredicates.java:58 | `contains(".")` is membership of `.` |
| `StePredicates.Holds` | src/main/java/com/madvay/tools/android/perf/common/StePredicates.java:28-148 | what each predicate tests; stated by `UnderPackageShape`, `InPackageShape`, `InPackageIsUnderPackage` and `EqualityImpliesContainment` |
| `StePredicates.UnderPackageShape` | src/main/java/com/madvay/tools/android/perf/common/StePredicates.java:37-46 | `underPackage(n)` holds exactly when the class name is n + "." + something |
| `StePredicates.InPackageShape` | src/main/java/com/madvay/tools/android/perf/common/StePredicates.java:48-61 | `inPackage(n)` holds exactly when the class name is n + "." + a name without a dot |
| `StePredicates.InPackageIsUnderPackage` | src/main/java/com/madvay/tools/android/perf/common/StePredicates.java:37-61 | `inPackage(n)` implies `underPackage(n)` |
| `StePredicates.EqualityImpliesContainment` | src/main/java/com/madvay/tools/android/perf/common/StePredicates.java:63-115 | classEq, methodEq and siteEq imply classContains, methodContains and siteContains |
| `TraceTransformers.Pruned` | src/main/java/com/madvay/tools/android/perf/common/TraceTransformers.java:39-46 | `prune(P)` keeps no frame satisfying P and never grows the trace |
| `TraceTransformers.Kept` | src/main/java/com/madvay/tools/android/perf/common/TraceTransformers.java:48-55 | `keep(P)` keeps only frames satisfying P |
| `TraceTransformers.PruneKeepPartition` | src/main/java/com/madvay/tools/android/perf/common/TraceTransformers.java:39-55 | `prune(P)` and `keep(P)` split the frames between them: the lengths add up and the multisets join to the trace |
| `TraceTransformers.FilterMembers` | src/main/java/com/madvay/tools/android/perf/common/TraceTransformers.java:39-55 | a frame survives `prune(P)` exactly when it is in the trace and fails P; for `keep(P)`, when it satisfies P |
| `TraceTransformers.FiltersDistribute` | src/main/java/com/madvay/tools/android/perf/common/TraceTransformers.java:39-55 | both filters distribute over concatenation, so order is kept |
| `TraceTransformers.FirstMatch` | src/main/java/com/madvay/tools/android/perf/common/TraceTransformers.java:61 | `indexOf` is the first matching frame, or -1 when none matches |
| `TraceTransformers.PrunedAbove` | src/main/java/com/madvay/tools/android/perf/common/TraceTransformers.java:57-68 | `pruneAbove` never lengthens the trace, and what it returns starts at a matching frame; `PrunedAboveShape` states the rest |
| `TraceTransformers.KeptAbove` | src/main/java/com/madvay/tools/android/perf/common/TraceTransformers.java:86-97 | `keepAbove` never lengthens the trace; `KeptAboveShape` states the rest |
| `TraceTransformers.PrunedAboveShape` | src/main/java/com/madvay/tools/android/perf/common/TraceTransformers.java:57-68 | no match gives an empty trace; otherwise a suffix starting at the first match |
| `TraceTransformers.KeptAboveShape` | src/main/java/com/madvay/tools/android/perf/common/TraceTransformers.java:86-97 | no match gives the input; otherwise the prefix before the first match, holding no match |
| `TraceTransformers.LastMatch` | src/main/java/com/madvay/tools/android/perf/common/TraceTransformers.java:74-80 | the last matching frame, or -1 when none matches |
| `TraceTransformers.PrunedBelow` | src/main/java/com/madvay/tools/android/perf/common/TraceTransformers.java:70-84 | `pruneBelow` never lengthens the trace, and what it returns ends at a matching frame; `PrunedBelowShape` states the rest |
| `TraceTransformers.KeptBelow` | src/main/java/com/madvay/tools/android/perf/common/TraceTransformers.java:99-113 | `keepBelow` never lengthens the trace; `KeptBelowShape` states the rest |
| `TraceTransformers.FindLast` | src/main/java/com/madvay/tools/android/perf/common/TraceTransformers.java:74-80 | the backward loop finds the last match |
| `TraceTransformers.PruneBelow` | src/main/java/com/madvay/tools/android/perf/common/TraceTransformers.java:70-84 | `pruneBelow` is the first last + 1 frames |
| `TraceTransformers.KeepBelow` | src/main/java/com/madvay/tools/android/perf/common/TraceTransformers.java:99-113 | `keepBelow` skips the first last + 1 frames |
| `TraceTransformers.PrunedBelowShape` | src/main/java/com/madvay/tools/android/perf/common/TraceTransformers.java:70-84 | empty exactly when nothing matches; otherwise the prefix ending at the last match |
| `TraceTransformers.KeptBelowShape` | src/main/java/com/madvay/tools/android/perf/common/TraceTransformers.java:99-113 | the whole input when nothing matches; otherwise the suffix after the last match, holding no match |
| `TraceTransformers.SplitsRebuild` | src/main/java/com/madvay/tools/android/perf/common/TraceTransformers.java:57-113 | keepAbove + pruneAbove and pruneBelow + keepBelow rebuild the trace |
| `TraceTransformers.SingleMatchIsolated` | src/main/java/com/madvay/tools/android/perf/common/TraceTransformers.java:57-84 | with exactly one match, `pruneBelow(pruneAbove(t))` is that one frame |
| `TraceTransformers.CollapsedFrom` | src/main/java/com/madvay/tools/android/perf/common/TraceTransformers.java:115-134 | the surviving frames never outnumber the frames |
| `TraceTransformers.RecursionPruned` | src/main/java/com/madvay/tools/android/perf/common/TraceTransformers.java:115-134 | `pruneRecursion` never lengthens the trace; `CollapsedNoRepeats` and `RecursionPrunedIdempotent` state the rest |
| `TraceTransformers.CollapseStep` | src/main/java/com/madvay/tools/android/perf/common/TraceTransformers.java:122-129 | one backward step prepends the frame exactly when its site differs from the remembered one |
| `TraceTransformers.PruneRecursion` | src/main/java/com/madvay/tools/android/perf/common/TraceTransformers.java:115-134 | the backward loop computes the recursion-pruned trace |
| `TraceTransformers.CollapsedNoRepeats` | src/main/java/com/madvay/tools/android/perf/common/TraceTransformers.java:115-134 | no two adjacent surviving frames share class and method |
| `TraceTransformers.CollapsedLastSite` | src/main/java/com/madvay/tools/android/perf/common/TraceTransformers.java:119-129 | the last surviving frame never has the sentinel site `~.~` |
| `TraceTransformers.CollapsedTailSentinel` | src/main/java/com/madvay/tools/android/perf/common/TraceTransformers.java:119-129 | if nothing survives from frame j on, the outermost frame had the sentinel site |
| `TraceTransformers.RecursionPrunedIdempotent` | src/main/java/com/madvay/tools/android/perf/common/TraceTransformers.java:115-134 | the result has no adjacent repeats, and pruning recursion twice is pruning it once |
| `TraceTransformers.CollapsedFromInput` | src/main/java/com/madvay/tools/android/perf/common/TraceTransformers.java:115-134 | every surviving frame is a frame of the input |
| `TraceTransformers.Idempotent` | src/main/java/com/madvay/tools/android/perf/common/TraceTransformers.java:39-134 | every transform returns frames of its input, and applying it a second time changes nothing |
| `TraceTransformers.Apply` | src/main/java/com/madvay/tools/android/perf/common/TraceTransformers.java:39-134 | every transform keeps at most the frames it is given; `Idempotent` states the rest |
| `TraceTransformers.PrunedUnchanged` | src/main/java/com/madvay/tools/android/perf/common/TraceTransformers.java:39-46 | pruning a trace with no match leaves it unchanged |
| `TraceTransformers.KeptUnchanged` | src/main/java/com/madvay/tools/android/perf/common/TraceTransformers.java:48-55 | keeping on a trace where all frames match leaves it unchanged |
| `PrettyAggregateOutput.Spaces` | src/main/java/com/madvay/tools/android/perf/common/PrettyAggregateRowOutput.java:44-46 | the padding is n blanks, none for n ≤ 0 |
| `PrettyAggregateOutput.Widest` | src/main/java/com/madvay/tools/android/perf/common/PrettyAggregateRowOutput.java:30-34 | the running `Math.max` of the strings' `length()`, from 0; `WidestBound` and `WidestReached` prove it is their maximum |
| `PrettyAggregateOutput.GroupTexts` | src/main/java/com/madvay/tools/android/perf/common/PrettyAggregateRowOutput.java:33 | `row.group.toString()` of every row, one per row |
| `PrettyAggregateOutput.WeightTexts` | src/main/java/com/madvay/tools/android/perf/common/PrettyAggregateRowOutput.java:32 | `String.valueOf(row.value)` of every row, one per row |
| `PrettyAggregateOutput.WidestBound` | src/main/java/com/madvay/tools/android/perf/common/PrettyAggregateRowOutput.java:30-34 | the maximum is at least every string's Java length in UTF-16 units |
| `PrettyAggregateOutput.WidestReached` | src/main/java/com/madvay/tools/android/perf/common/PrettyAggregateRowOutput.java:30-34 | the maximum is 0 for no rows, and otherwise the Java length of some row's string |
| `PrettyAggregateOutput.LineLayout` | src/main/java/com/madvay/tools/android/perf/common/PrettyAggregateRowOutput.java:40-56 | in UTF-16 units a line is the group, blanks to groupCols, the separator (blank, vertical bar, blank), blanks, the weight right-aligned in weightCols, then newline, of length groupCols + 3 + weightCols + 1 |
| `PrettyAggregateOutput.Line` | src/main/java/com/madvay/tools/android/perf/common/PrettyAggregateRowOutput.java:40-56 | the text one row prints; its layout is stated by `LineLayout` and `LineAligned` |
| `PrettyAggregateOutput.PrettyAggregateRowOutput.constructor` | src/main/java/com/madvay/tools/android/perf/common/PrettyAggregateRowOutput.java:29-37 | the widths are 2 + the longest group string and 2 + the longest decimal weight, lengths in UTF-16 units |
| `PrettyAggregateOutput.PrettyAggregateRowOutput.Apply` | src/main/java/com/madvay/tools/android/perf/common/PrettyAggregateRowOutput.java:40-56 | the padding loops, counting `length()` in UTF-16 units, build exactly the laid-out line of the row |
| `PrettyAggregateOutput.LineAligned` | src/main/java/com/madvay/tools/android/perf/common/PrettyAggregateRowOutput.java:40-56 | a line whose strings fit has the fixed length in UTF-16 units, the group first, the separator (blank, vertical bar, blank) at unit groupCols and newline last |
| `PrettyAggregateOutput.TableLinesAligned` | src/main/java/com/madvay/tools/android/perf/common/PrettyAggregateRowOutput.java:29-56 | every row of the table sized by the constructor prints to the same length, with the separator (blank, vertical bar, blank) at the same column |

## Left out

- **Console I/O and file mapping.**
  - `mapFile`, `main` and the `printf` calls of `AllocationsParser.java` are
    not modelled.
  - `Parse` returns, in place of output, the records the `printf` calls
    print: allocation number, class, size, signed thread id and formatted
    frames. On an error it returns the error and the records printed before
    it.
- **Code outside the core.**
  - `Main.java` and `CommandLine.java` handle arguments, classpath resources
    and `System.exit`.
  - `PrettyOutput.java` is a `printf` wrapper.
  - `AllocationsParserAdapter.java` delegates to a parser library that is
    not part of this model.
- **Library behaviour.** Two library calls are the uninterpreted parameters
  of `JavaLang.Library`:
  - `StackTraceElement.toString`;
  - full matching of `java.util.regex`.
  
  `Pattern.compile` errors on a bad expression are not modelled.
- **Strings are Unicode scalar values.** A Dafny `char` is a code point, not
  a UTF-16 unit.
  - `String.length()` and `String.compareTo` are modelled on the UTF-16
    encoding (`JavaLang.Utf16`). A character above U+FFFF counts as two units
    and compares by its surrogates.
- `AllocationsParser.UnitsToString`: a surrogate pair becomes one
  supplementary character, as in Java. An unpaired surrogate unit fails the
  decode with `SurrogateCodeUnit`, because a Dafny `char` cannot hold one;
  Java's `new String(char[])` keeps it as it is.
- `AllocationsParser.GetString` and `AllocationsParser.StringAt` inherit that
  gap: a string-table entry with an unpaired surrogate ends `Decode` and
  `Parse` with `SurrogateCodeUnit`, where Java reads on.
- `JavaLang.ParseLong`: accepts ASCII digits only. `Long.parseLong` reads
  digits through `Character.digit`, so it also accepts other Unicode decimal
  digits (Arabic-Indic, fullwidth and so on); the model rejects those with
  NumberFormatException.
- **`Byte` is an `int` subset type** holding 0..255, not `bv8`. The decoder
  forms the signed readings (`get`, `getShort`, `getInt`) arithmetically.
- **Guava's lazy views are computed eagerly:**
  - `Lists.transform` and `Iterables.transform` in `transformTraces` and
    `splitTraces`;
  - `Collections2.filter`.
  
  The functions they apply are pure, so the contents are the same.
- **Subclasses are modelled as parameters.**
  - `TraceTransformableTable` is not a subclass of `Table`. Its two
    operations are methods on a `Table` that take a `TraceAccess`: how to
    read a row's trace and how to rebuild a row with another trace.
  - The anonymous `Table` subclass that `groupAndAggregate` returns is a
    `Table` constructed with the aggregate adapter.
- **`AllocTable.newRowWithTrace` passes a `List`** where the `AllocRow`
  constructor takes an array. It is modelled as building the row with the
  given frames. `AllocRow`'s defensive copy is a value copy.
- **AllocRow column kinds are a modelling choice.** `RowAdapter`'s
  constructor is not part of this model, so the kinds the `AllocRow` adapter
  registers are not visible. The model takes NUMERIC for `id`, `size` and
  `thread`, and TEXT for `allocatedClass` and `stackTrace`.
- `Aggregation.SumGroup`: a SUM is an unbounded integer. It does not model
  the wrap-around of a 64-bit `long` overflow in `l +=`.
- `Aggregation.SumsAddUp`: states the total with unbounded integers, i.e. on
  the assumption that no overflow occurs.
- `Tables.Table.SortOn` (and `Tables.SortedOn`): when several pairs of rows cannot be compared, the
  model reports the error of the first such pair in row order. TimSort may
  reach another pair first and throw that pair's exception instead. Whether
  the sort fails does not depend on this (`Tables.SortedOnFails`).
- **The `HashSet` of UNIQUE is modelled as a `set<string>`.** Only its size
  is observable.
- **`ImmutableListMultimap` key order** is modelled as the order in which
  keys first appear, which is Guava's documented order.
