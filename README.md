# utility.cpp of Visual Leak Detector, in Dafny

Visual Leak Detector (vld) hooks a program's memory allocator. It patches the
Import Address Table (IAT) of loaded modules, so that calls to the C runtime's
allocation functions reach vld's replacements instead. `utility.cpp` holds the
helpers it does this with. This project models those helpers and proves what
they promise:

- `patchimport` / `restoreimport` (`import_patching.dfy`, module
  `ImportPatching`). `patchimport` finds the import descriptor of a named
  exporting module. It then rewrites the first slot of that module's IAT that
  holds the import's real address, so that the slot points at a replacement.
  While it writes, the page is made writable, and its protection is restored
  afterwards. `restoreimport` does the reverse. The image is the class `Image`.
  It holds an optional descriptor sequence (the Import Directory Table of the
  PE/COFF ".idata" section), one array of pointer-sized IAT slots, and a
  per-page protection map. Both operations are methods with loops over the
  descriptors and over the slots. They are proved against the specification
  functions `Patched` and `Restored`, and the lemmas about those functions state:
  - first match only;
  - nothing to patch;
  - the two round trips;
  - idempotence.
- `dumpmemory` (`memory_dump.dfy`, module `MemoryDump`). It fills the
  fixed-size buffers `hexdump[58]` and `ascdump[18]` in place, byte by byte, at
  the source's computed indices, and reports a line every 16 bytes. `report`
  becomes appending a line to an output sequence. The method is proved to
  report exactly `dumplen / 16` lines, the n-th being the layout function `Line`
  of bytes `16n .. 16n+15`. Further lemmas pin the layout of a line:
  - its length;
  - the column of each byte's hex digits and character;
  - the bounds of every store;
  - the 32-bit `dumplen`.
- `booltostr` / `strtobool` (`bool_strings.dfy`, module `BoolStrings`). These
  are pure functions. The round trip `strtobool(booltostr(b)) == (b == TRUE)` is
  proved, and so is the fact that a decimal number means TRUE exactly when it
  is 1.
- `strapp` (`cstrings.dfy`, module `CStrings`). The method writes out the copy
  and concatenate loops. The module also holds C-string and ASCII case-folding
  helpers (`_stricmp`, the `%s` view of a buffer). See "Findings" for what
  `strapp` does as written when the source string is empty.

`wrappers.dfy` holds the `Option` datatype.

## Model

| member | source | states |
|---|---|---|
| ImportPatching.Image.PatchImport | utility.cpp:192-246 | The IAT afterwards is `Patched` of the IAT before. Protection of every page is as before. The image stays well formed. |
| ImportPatching.Image.RestoreImport | utility.cpp:301-354 | The IAT afterwards is `Restored` of the IAT before. Protection is as before. The image stays well formed. |
| ImportPatching.Image.LocateDescriptor | utility.cpp:206-222 | The descriptor loop returns `FindImport`: None with no import directory, else the first matching entry before the terminator. |
| ImportPatching.Image.ScanSlots | utility.cpp:232-245 | The IAT loop returns `FindSlot`: the first slot before the zero slot that holds the target, or None. |
| ImportPatching.Image.VirtualProtect | utility.cpp:239-241 | Returns the old protection of the slot's page and sets only that page's protection. |
| ImportPatching.Image.Store | utility.cpp:240 | The store into a writable page changes exactly that one slot. |
| ImportPatching.Image.OverwriteSlot | utility.cpp:239-241 | Make writable, store, restore protection: exactly one slot changes, the protection map ends unchanged, the image stays well formed. |
| ImportPatching.Image.constructor | utility.cpp:206 | An image over the given descriptors, slots and protections, well formed. |
| ImportPatching.FindImport | utility.cpp:206-222 | No import directory gives None. Some(i): entry i lies before the terminator, its name matches ignoring case, and no earlier entry matches. None with a directory: no entry before the terminator matches. |
| ImportPatching.LocateFrom | utility.cpp:211-217 | Some(i): entry i matches ignoring case, lies before the terminator, and no earlier entry matches. None: no entry before the terminator matches. |
| ImportPatching.DescriptorEnd | utility.cpp:211 | The first entry with OriginalFirstThunk zero, with every earlier entry nonzero. |
| ImportPatching.TableEnd | utility.cpp:233 | The first zero slot of an IAT, with every earlier slot nonzero. |
| ImportPatching.FindSlot | utility.cpp:233-234 | Some(k): slot k holds the target, lies before the zero slot, and no earlier slot holds it. None: no live slot holds it. |
| ImportPatching.Rewrite | utility.cpp:233-243 | One pass of the IAT loop keeps the table's length and its zero slot. |
| ImportPatching.WriteKeepsSentinel | utility.cpp:240 | Overwriting a nonzero slot keeps every IAT terminated. |
| ImportPatching.WriteKeepsEnd | utility.cpp:240 | Writing a nonzero value into a live slot leaves the table's end where it was. |
| ImportPatching.TableEndIs | utility.cpp:233 | A zero slot with only nonzero slots before it is the table's end. |
| ImportPatching.FindSlotIs | utility.cpp:233-234 | The first live slot holding the target is what the search finds. |
| ImportPatching.RewriteFirstMatchOnly | utility.cpp:233-243 | With no live match nothing changes. Otherwise exactly the first live match becomes the new value and every other slot is unchanged. |
| ImportPatching.RewriteUndone | utility.cpp:233-243 | Rewriting a to a nonzero b that was not live, then b back to a, restores every slot. |
| ImportPatching.RewriteIdempotent | utility.cpp:233-234 | If the target is live at most once, a second identical rewrite changes nothing. |
| ImportPatching.WriteKeepsWellFormed | utility.cpp:240 | Overwriting a nonzero slot keeps the whole image well formed. |
| ImportPatching.RewriteKeepsWellFormed | utility.cpp:233-243 | A rewrite of one IAT keeps the whole image well formed. |
| ImportPatching.Patched | utility.cpp:192-246 | patchimport's effect on the slots keeps their number and keeps the image well formed. |
| ImportPatching.Restored | utility.cpp:301-354 | restoreimport's effect on the slots keeps their number and keeps the image well formed. |
| ImportPatching.NothingToPatch | utility.cpp:206-222 | With no import directory, or no entry before the terminator whose name matches ignoring case, neither operation changes any slot. |
| ImportPatching.PatchFirstMatchOnly | utility.cpp:232-245 | patchimport sets exactly the first live slot holding the real address to the replacement, and changes nothing when no live slot holds it. |
| ImportPatching.RestoreFirstMatchOnly | utility.cpp:341-353 | restoreimport sets exactly the first live slot holding the replacement to the real address, and changes nothing when no live slot holds it. |
| ImportPatching.PatchRestoreRoundTrip | utility.cpp:232-245 | Patch then restore gives back every slot, given a nonzero replacement that is not already live. |
| ImportPatching.RestorePatchRoundTrip | utility.cpp:341-353 | Restore then patch gives back every slot, given a nonzero real address that is not already live. |
| ImportPatching.PatchIdempotent | utility.cpp:233-234 | A second patchimport changes nothing when the real address was live at most once. |
| ImportPatching.RestoreIdempotent | utility.cpp:342-343 | A second restoreimport changes nothing when the replacement was live at most once. |
| CStrings.ToLower | utility.cpp:212 | `_stricmp` folding: upper-case ASCII letters become lower case (code point plus 32), every other character is unchanged, and no result is upper case. |
| CStrings.Lower | utility.cpp:212 | Folding a string keeps its length. |
| CStrings.EqualsIgnoreCase | utility.cpp:212 | `_stricmp(a, b) == 0`: equal strings compare equal, and strings that compare equal have the same length. |
| CStrings.EqualsIgnoreCaseCharwise | utility.cpp:212 | Case-insensitive equality holds iff the lengths agree and the folded characters agree position by position. |
| CStrings.LowerAt | utility.cpp:212 | Each character of the folded string is the folded character. |
| CStrings.EqualsIgnoreCaseIsEquivalence | utility.cpp:212 | Case-insensitive equality is reflexive, symmetric and transitive. |
| CStrings.CString | utility.cpp:123 | The `%s` view of a buffer is a NUL-free prefix, followed by a NUL when it stops early. |
| CStrings.CStringOfTerminated | utility.cpp:123 | A buffer holding NUL-free text followed by a NUL reads back as that text. |
| CStrings.StrApp | utility.cpp:391-402 | The new string is the old `*dest` followed by `source`; its length is the sum of theirs. |
| CStrings.CopiedBuffer | utility.cpp:398-399 | After allocation and `_tcsncpy` of a NUL-free dest, the buffer holds a NUL exactly when dest is shorter than `length`: when dest fills the count, no terminator is written. |
| CStrings.ScanLength | utility.cpp:400 | Some(n): cell n is the first NUL, and every cell before it is written and not NUL. None: the scan reaches an unwritten cell, or the end of the buffer, with every cell before it written and not NUL. |
| CStrings.UnterminatedBefore | utility.cpp:400 | A scan that runs off from the next cell also runs off from a written non-NUL cell. |
| CStrings.StrAppAsWritten | utility.cpp:396-400 | As written, any string strapp produces ends with `source`, and the part before `source` holds no NUL. |
| CStrings.ScanSkipsCopied | utility.cpp:399-400 | The terminator scan passes over every copied character of dest. |
| CStrings.EmptySourceReadsUnwrittenCell | utility.cpp:397-400 | As written, with an empty source the scan reaches the never-written last cell, for every dest. |
| CStrings.EmptySourceExample | utility.cpp:397-400 | As written, strapp of "ab" and "" reads the unwritten cell. |
| CStrings.NonEmptySourceAppends | utility.cpp:396-400 | As written, with a non-empty source strapp does yield dest followed by source. |
| BoolStrings.BoolToStr | utility.cpp:53-61 | booltostr returns "true" or "false". |
| BoolStrings.BoolToStrOnlyExactTrue | utility.cpp:55-59 | "true" exactly when b == TRUE; "false" for every other value, non-zero ones included. |
| BoolStrings.StrToBool | utility.cpp:414-426 | strtobool of a C string (no NUL inside) returns TRUE or FALSE. |
| BoolStrings.BoolRoundTrip | utility.cpp:417-420 | strtobool(booltostr(b)) is TRUE iff b == TRUE. |
| BoolStrings.FalseReadsFalse | utility.cpp:417-420 | strtobool("false") is FALSE: no word matches and `_tcstol` reads 0. |
| BoolStrings.SkipSpace | utility.cpp:420 | `_tcstol` skips the leading white space: every dropped character is white space, the rest is a suffix, and it does not start with white space. |
| BoolStrings.StrToLong | utility.cpp:420 | `_tcstol(s, &end, 10)` is 0 when no digit follows the white space and optional sign, and negative only after a '-'. |
| BoolStrings.DigitRun | utility.cpp:420 | `_tcstol` reads the longest prefix of digits: it is all digits, and the next character is not a digit. |
| BoolStrings.DecimalParses | utility.cpp:420 | `_tcstol` reads the decimal spelling of n back as n. |
| BoolStrings.LeadingDigitIsNoWord | utility.cpp:417-419 | A string starting with a digit equals none of the words, ignoring case. |
| BoolStrings.DecimalIsTrueOnlyForOne | utility.cpp:417-420 | A decimal number reads as TRUE iff it is 1. |
| MemoryDump.DumpMemory | utility.cpp:75-136 | Exactly `dumplen / 16` lines are reported, line n showing the 16 bytes from 16n (padding past the end). |
| MemoryDump.DumpByte | utility.cpp:100-135 | One loop pass counts the byte, keeps the buffers holding the current line's columns, and reports the line when it ends. |
| MemoryDump.PutByte | utility.cpp:101-118 | The byte's hex cell (or three spaces) and its character (or '.') extend the columns, with a NUL after the hex cell. |
| MemoryDump.FinishByte | utility.cpp:119-134 | After the 16th byte of a line it reports that line and starts the next; otherwise it adds the spacers and reports nothing. |
| MemoryDump.ContinueLine | utility.cpp:125-134 | The spacers after a byte that does not end its line complete the columns of the bytes so far. |
| MemoryDump.PutHalfSpacer | utility.cpp:126-129 | After the 8th byte of a line a space follows its character column; otherwise the column is unchanged. |
| MemoryDump.PutWordSpacer | utility.cpp:130-133 | After each 4-byte word but the last, three spaces follow its hex cells. |
| MemoryDump.ReportLine | utility.cpp:119-123 | The report made at the end of a line is `Line` of that line's bytes. |
| MemoryDump.Report | utility.cpp:123 | The reported line is four spaces, the `%s` view of `hexdump`, four spaces, that of `ascdump` and a newline: nine characters more than the two C strings. |
| MemoryDump.Line | utility.cpp:123 | The printed line for 16 bytes opens with the format's four spaces; LineLength, LineHexColumn and LineCharColumn state its length and columns. |
| MemoryDump.LineReported | utility.cpp:123 | Buffers holding a full line's columns and terminated at the last cell print as that line. |
| MemoryDump.StrNCpy | utility.cpp:106 | `strncpy` writes `src` padded with NULs into exactly `count` cells and leaves the others. |
| MemoryDump.DumpLength | utility.cpp:88-95 | dumplen is a multiple of 16 below 2^32. |
| MemoryDump.TruncatedLines | utility.cpp:82 | Truncating a multiple of 16 to 32 bits leaves a multiple of 16. |
| MemoryDump.DumpLengthPadsToLines | utility.cpp:88-95 | For every size up to 0xFFFF_FFF0, dumplen is the smallest multiple of 16 at or above size. |
| MemoryDump.DumpLengthWraps | utility.cpp:82-95 | For sizes 0xFFFF_FFF1 and 0xFFFF_FFFF, dumplen wraps to 0. |
| MemoryDump.HexIndex | utility.cpp:101 | hexindex of position p lies between 3p and 4p: three characters a byte, at most one spacer character more. |
| MemoryDump.AsciiIndex | utility.cpp:102 | ascindex of position p is p, or p + 1 after the half-line spacer. |
| MemoryDump.StoresInBounds | utility.cpp:101-133 | Every store is inside its buffer: hexindex + 4 <= 58, hexindex + 3 + 4 <= 58 for spacers, ascindex + 1 < 18. |
| MemoryDump.HexDigit | utility.cpp:105 | A hex digit is never NUL. |
| MemoryDump.Hex2 | utility.cpp:105 | `%.2X` prints two NUL-free characters. |
| MemoryDump.Hex2RoundTrip | utility.cpp:105 | The two printed digits give the byte back. |
| MemoryDump.Shown | utility.cpp:107-112 | The character shown is a printable non-space character, never NUL. A byte shows as itself exactly when `isprint` holds of it and it is not a space; every other byte shows as '.'. |
| MemoryDump.HexCell | utility.cpp:103-117 | Each byte's hex cell is three NUL-free characters, data or padding. |
| MemoryDump.AsciiCell | utility.cpp:103-117 | Each byte's character is not NUL, data or padding. |
| MemoryDump.HexIndexStep | utility.cpp:101 | hexindex grows by 3 per byte plus 3 after each word that does not end the line. |
| MemoryDump.HexFieldLength | utility.cpp:101 | The hex columns of the first p bytes end at hexindex(p); a full line fills 57. |
| MemoryDump.AsciiFieldLength | utility.cpp:102 | The character columns of the first p bytes end at ascindex(p); a full line fills 17. |
| MemoryDump.HexFieldAt | utility.cpp:101-106 | Byte p's hex cell sits at hexindex(p) of the line's hex column. |
| MemoryDump.AsciiFieldAt | utility.cpp:102-117 | Byte p's character sits at ascindex(p) of the line's character column. |
| MemoryDump.LineLength | utility.cpp:123 | Every printed line is 83 characters long. |
| MemoryDump.LineHexColumn | utility.cpp:101-123 | In a printed line, byte p's hex cell is at column 4 + hexindex(p). |
| MemoryDump.LineCharColumn | utility.cpp:102-123 | In a printed line, byte p's character is at column 65 + ascindex(p). |
| MemoryDump.Lines | utility.cpp:120-123 | The first `count` lines of the dump number `count`. |
| MemoryDump.LinesAt | utility.cpp:120-123 | Line n of the dump shows the bytes from 16n. |
| MemoryDump.EveryLine | utility.cpp:120-123 | Every line of the dump shows the bytes at its own offset. |
| MemoryDump.Position | utility.cpp:101-120 | Byte 16k + p is at position p of its line, and the line ends with it iff p is 15. |
| MemoryDump.WholeLines | utility.cpp:100 | When the loop stops at a multiple of 16, no part of a line is pending. |
| MemoryDump.FieldsGrow | utility.cpp:124-133 | A byte that does not end its line adds its cells and then the spacers due after it. |

## Left out

- `getprogramcounterx86x64` is not part of this model. It is inline assembly that reads the stack frame.
- `report` and `setreportfile` are not modelled. They do file and debugger I/O (`fwrite`, `OutputDebugString`, `Sleep`) and set global sink state. `report` appears only as the line `dumpmemory` hands it, `MemoryDump.Report`.
- MemoryDump.Report: the model is the ANSI build, where `TCHAR` is `char`. In a `_UNICODE` build `report` formats with `_vsnwprintf`, whose `%s` reads a wide string, while `hexdump` and `ascdump` stay `char` arrays; what that build prints is not modelled.
- MemoryDump.Report: `report` truncates messages to MAXREPORTLENGTH characters; a dump line is 83 characters, so the model omits the truncation.
- `ImageDirectoryEntryToDataEx`, `R2VA` and struct layouts are replaced by an abstract image. The image is an optional descriptor sequence, and slot indices stand in for relative virtual addresses.
- `GetModuleHandleA`/`GetProcAddress` become the parameter `realAddr`. The source asserts that both succeed once a descriptor is found; the model states this as the precondition `FindImport(...).Some? ==> realAddr != 0`.
- ImportPatching.Image.VirtualProtect: always succeeds, and the protection is kept per 4096-byte page (512 slots). The real memory manager and a failing VirtualProtect are not modelled.
- ImportPatching.Image.PatchImport: requires a well-formed image. That means a terminated descriptor array and IATs that end in a zero slot, which the loader guarantees. A malformed image, where the source would read out of bounds, is not modelled.
- ImportPatching.Image.RestoreImport: the same well-formedness requirement as PatchImport.
- The import model is the x64 build: `Word` is 64 bits wide. A slot is 8 bytes, so a 4096-byte page holds 512 slots. In the x86 build a slot is 4 bytes and a page holds 1024; no law depends on the width.
- Ordinal-flagged thunks get no special case, because the source compares whole words.
- Concurrency and the atomicity of the pointer-sized store are not modelled. The source does no synchronisation.
- BoolStrings.StrToLong: `_tcstol` is simplified to leading white space, an optional sign and decimal digits. Locale, `errno` and the clamping to LONG_MAX/LONG_MIN are left out. A clamped value is never 1, and 1 is the only value strtobool tests for.
- CStrings.EqualsIgnoreCase: both arguments are C strings, so a string with a NUL inside is outside its domain. `_stricmp` would stop at that NUL. Descriptor names are not constrained to be NUL-free.
- MemoryDump.Shown: `isprint` is taken in the "C" locale (0x20 to 0x7E), and `sprintf("%.2X ")` is the two-digit function `Hex2`.
- CStrings.StrApp: the `new`/`delete` of the vld heap are not modelled. The result is a fresh sequence, and the old buffer's release is not represented.
- CStrings.StrApp: models the corrected behaviour, with the terminator written (see Findings). `StrAppAsWritten` models the code as written.
- ImportPatching.PatchRestoreRoundTrip and ImportPatching.RestorePatchRoundTrip do not need the real address (or the replacement) to occur in the table. Without a match, both directions change nothing.
- ImportPatching.PatchIdempotent and ImportPatching.RestoreIdempotent assume "at most once" rather than "exactly once", which covers both cases.
- MemoryDump.DumpLengthPadsToLines: holds only up to 0xFFFF_FFF0. Above that, `dumplen` is an `unsigned long` (32 bits on Windows) and wraps. `DumpLength` models the wrap, and `DumpLengthWraps` shows it.

## Findings

| source | as written | input that shows it | evidently intended | confidence | as-written member | corrected member |
|---|---|---|---|---|---|---|
| utility.cpp:397-400 | `_tcsncpy(*dest, temp, length)` copies `strlen(temp)` characters and pads with NUL only up to `length`. The cell at `length` of the new `length + 1` buffer is never written. When `source` is empty, `length == strlen(temp)` and no NUL lands in the buffer, so `_tcsncat` scans into the unwritten cell. | `*dest == "ab"`, `source == ""` | `*dest` becomes a NUL-terminated copy of the old string followed by `source` | not executed | CStrings.EmptySourceExample | CStrings.StrApp |
