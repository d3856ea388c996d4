# Verification of tonyhax

This project models the algorithms of tonyhax, a PlayStation loader written in C, MIPS assembly and shell, and proves
what they compute. Each module follows one part of the loader:

- `Bits`, `Numerals`, `Storage`: machine words as bounded naturals with exclusive or and byte order; hexadecimal digits
  and the BIOS call `todigit`; byte ranges written in place into files and memory.
- `Crc`, `Burst`, `Polynomial`, `Gzip`, `Residue`, `ResidueConstant`: `crc32`. The register loop is tied to division of
  polynomials over GF(2) (ITU-T V.42), to the table algorithm of gzip (RFC 1952), and to what it detects.
- `BuildChain`, `Loader`, `Integrity`: the integrity chain. Build scripts edit a `Disk`; the entry point, `bzero` and
  `integrity_test` work on the RAM of a `Console`; `Integrity.BuildLoadAndTest` joins them end to end.
- `Format`, `Config`: `mini_vsprintf` and the SYSTEM.CNF parser over NUL-terminated character arrays, and the round
  trip between them.
- `Video`, `Font`, `LogScreen`: video memory, the unpacking of the ROM font, and `debug_write`, whose log is compared
  pixel by pixel with the run-length encoding of everything written.
- `Uart`: the bit-banged transmitter against an 8N1 receiver.
- `Patcher`: jump encodings and the layout of the patches in kernel memory.
- `Checksums`, `Romdir`: the save repair scripts and the ROM directory walker.

C and MIPS integers are modelled explicitly: words are naturals below 2^32 with wrap-around written out, `/` and `%`
truncate toward zero, `char` is signed.

## What the code does that one might not expect

- The save file header goes to the fixed name `tonyhax.mcs` whatever name `generate-tonyhax-mcs.sh` was given
  (line 32). The end-to-end result holds for that name, which is the one the Makefile uses. Under any other name the
  save boots if and only if the template's own fields happen to be loadable; those of the shipped template are not.
- The CRC covers .text, .rodata and .data. The filler before the word-aligned .crc section is not covered, and neither
  is the padding behind it.
- An executable length of 0xFFFFFFFF in the header equals the error code of `FileRead`, so the entry point jumps with
  nothing loaded. A length that is no multiple of 128 otherwise ends in the red screen.
- A negative `%d` prints a minus sign and the mirror images of its digits around '0': -7 prints as `-)`. Standard
  decimal comes out if and only if the value is not negative.
- A format that ends in a lone `%` prints a backslash, not a percent sign, and is one of those that do not compose
  with what follows.
- `config_get_string` skips line feeds before the value, so an empty setting takes the first word of the next line.
- An empty first message counts as a repetition of the cleared last line and shows as ` (x1)`. A message repeated 2^31
  times or more shows a negative or wrapped count. In these two cases, and no other, the log differs from the
  run-length encoding of the history.
- The comment in `patch-uart.S` says the exclusive or sets JOY_CTRL.2; the constant 0x2002 sets bit 1.
- The Cool Boarders 4 repair of a file that ends before its checksum slot does not verify: the write extends the file
  and with it the bytes the game sums.
- The Crash Bandicoot script, given a file with nothing in the save area, reads an empty line instead of a number. The
  arithmetic error ends the loop but not the script, which goes on to write the seed 0x12345678 into the slot.

## Model

| member | source | states |
|---|---|---|
| `Crc.ComputeCrc32` | loader/crc.c:6-26 | The loop over memory returns the CRC of exactly the bytes in the range, for every memory, start and length, the empty range included. |
| `Crc.StepXor` | loader/crc.c:13-19 | One shift step is linear over GF(2). |
| `Crc.StepUnstep` | loader/crc.c:13-19 | A shift step is onto: every register has a predecessor. |
| `Crc.UnstepStep` | loader/crc.c:13-19 | A shift step is one to one, because bit 31 of 0xEDB88320 tells whether the constant was folded in. |
| `Crc.FeedXor` | loader/crc.c:10-23 | Feeding is linear in register and data together. |
| `Crc.FeedInjective` | loader/crc.c:10-23 | Feeding a fixed byte string never merges two registers. |
| `Crc.FeedUnfeed` | loader/crc.c:10-23 | Feeding a fixed byte string reaches every register. |
| `Crc.CrcAffine` | loader/crc.c:8-25 | For equal lengths, crc(a) xor crc(b) xor crc(c) is crc(a xor b xor c). |
| `Burst.MessageBitsIndex` | loader/crc.c:11-15 | The message as the loop consumes it: bit j of byte i is bit 8i + j, least significant bit first. |
| `Burst.FeedIsFeedBits` | loader/crc.c:10-23 | Working byte by byte is the same as feeding the bits one at a time. |
| `Burst.SameCrcIffZeroSyndrome` | loader/crc.c:10-25 | Two messages of one length have the same CRC if and only if their difference alone takes a zero register to zero. |
| `Burst.OnlyOwnBitsReachZero` | loader/crc.c:10-23 | From a register, at most 32 bits lead to zero if and only if they are the register's own bits. |
| `Burst.BurstDetected` | loader/crc.c:10-25 | Every difference inside 32 consecutive bits, at any offset and across bytes, changes the CRC. |
| `Burst.BurstOf33Detected` | loader/crc.c:10-25 | The bound is sharp: inside 33 bits the CRC misses a difference if and only if it is the generator's own pattern. |
| `Polynomial.RemainderUnique` | loader/crc.c:6-26 | Division of polynomials over GF(2) leaves one remainder only, so the definition of the frame check sequence means one word. |
| `Polynomial.PolyBits` | loader/crc.c:15 | 0xEDB88320 is the V.42 generator reflected, without its leading term, coefficient by coefficient. |
| `Polynomial.FeedBitDivides` | loader/crc.c:13-19 | A step multiplies the register by x, brings the next bit in at x^32 and subtracts the generator when a term of degree 32 appears. |
| `Polynomial.RegisterIsRemainder` | loader/crc.c:10-23 | After any bits the register is the remainder of the preset message times x^32 by the generator. |
| `Polynomial.CrcIsFrameCheckSequence` | loader/crc.c:6-26 | A word is the frame check sequence of section 8.1.1.6.2 of ITU-T V.42 for a byte string if and only if `crc32` returns it. |
| `Gzip.LookupIsEightSteps` | loader/crc.c:13-19 | A lookup in the 256-entry table and a byte shift do what eight steps do. |
| `Gzip.TableCrcIsCrc32` | loader/insert-tonyhax-crc.sh:5-9 | The table algorithm of section 8 of RFC 1952, which gzip uses at build time, gives the run-time CRC of every input. |
| `Residue.ResidueIffOwnCrc` | loader/integrity.c:15-18 | Four bytes after a message hold its CRC if and only if the whole has the fixed residue. |
| `ResidueConstant.ResidueInFigures` | loader/insert-tonyhax-crc.sh:24 | A message followed by four bytes has the CRC 0x2144DF1C if and only if they are its own CRC in little-endian order. |
| `Residue.FieldIsTheOnlyOne` | loader/crc.c:10-23 | Exactly one four-byte field takes a given register to a given register. |
| `Residue.OneFieldForEveryCrc` | loader/crc.c:10-23 | Between any prefix and suffix exactly one four-byte field gives any wanted CRC. |
| `BuildChain.EscapedHexIsLittleEndian` | loader/insert-tonyhax-crc.sh:24 | Cutting eight hexadecimal digits into pairs from the right gives the little-endian bytes of the number. |
| `BuildChain.ShellCrcIsCrc32` | loader/insert-tonyhax-crc.sh:5-9 | Whatever gzip compresses the data to, the pipeline prints `crc32` of the data in eight upper-case digits. |
| `BuildChain.InsertCrc` | loader/insert-tonyhax-crc.sh:18-27 | The .crc section becomes the little-endian `crc32` of the other sections, which stay as they are. |
| `BuildChain.HeaderFields` | loader/generate-tonyhax-mcs.sh:31-32 | The eight header bytes are the little-endian load address and the little-endian padded length. |
| `BuildChain.GenerateMcs` | loader/generate-tonyhax-mcs.sh:22-32 | The whole new state of the disk, for the usual output name and for any other, and the failure of `cp` for a missing or identical template. |
| `BuildChain.FilledTemplateBytes` | loader/generate-tonyhax-mcs.sh:27-29 | Byte by byte: the binary from 384 on, the title from 132 on, the template's own bytes everywhere else. |
| `BuildChain.SaveFileBytes` | loader/generate-tonyhax-mcs.sh:27-32 | The finished save differs from that in bytes 192 to 199 only, which hold address and length. |
| `BuildChain.TitleInSave` | loader/generate-tonyhax-mcs.sh:28 | A title that ends before the fields is in the save at 132, letter for letter. |
| `BuildChain.FillerIsZero` | loader/generate-tonyhax-mcs.sh:23 | Filler and padding are zeros. |
| `Loader.Console.Bzero` | loader/str.c:158-166 | Exactly the given range of RAM becomes zero. |
| `Loader.Console.IntegrityTest` | loader/integrity.c:15-18 | `integrity_ok` becomes true if and only if the CRC of the image in RAM is the stored word, and RAM does not change. |
| `Loader.Console.Start` | loader/secondary.c:441-448 | The BSS is cleared first and the verdict is about RAM as it is afterwards. |
| `Loader.Console.FileRead` | loader/bios.h:398-410 | The call as the model takes it: whole 128-byte sectors into RAM, whichever segment the address names, up to the end of the file; -1 for a bad length and a short count at the end are assumptions. |
| `Loader.Console.EntryPoint` | entrypoints/entry.S:82-114 | For every file whether the entry point jumps, locks up in red or reads outside the 2 MB of RAM, and after a jump the whole of RAM; addresses in any of the three segments that show RAM are loaded. |
| `Loader.EntryCases` | entrypoints/entry.S:85-114 | The outcome in figures: 256 bytes of header, the address in bytes 64 to 67, the length in 68 to 71, whole sectors covered by the rest of the file. |
| `Loader.MirrorsInFigures` | entrypoints/entry.S:95-104 | The addresses that are loaded are the 2 MB from 0, 0x80000000 and 0xA0000000. |
| `Integrity.BurstRejected` | loader/integrity.c:15-18 | An accepted image altered inside 32 consecutive bits of image and CRC side by side is not accepted. |
| `Integrity.BurstInBinaryRejected` | loader/integrity.c:15-18 | A binary altered inside 32 consecutive bits as they lie in memory, filler between image and CRC included, is accepted if and only if image and CRC were spared. |
| `Integrity.FitsInFigures` | loader/secondary.ld:1-30 | A program fits if and only if it starts at 0x801FA100, its CRC stands on the word after the image, and the BSS behind that ends by 0x801FE000. |
| `Integrity.PaddedBinaryFits` | loader/generate-tonyhax-mcs.sh:22-24 | A program that fits the linker region still fits it, CRC included, once padded to a multiple of 128. |
| `Integrity.RawSaveFields` | util/mcs2raw.sh:9 | In the save without its container the address, the length and the whole padded binary lie where the entry point reads them. |
| `Integrity.SaveFileKeepsLength` | loader/generate-tonyhax-mcs.sh:27-32 | For every program that fits the region, filling in the 16512-byte template does not make it longer. |
| `Integrity.CarriedBoots` | entrypoints/entry.S:85-114 | Any raw save with the right address and a length of whole sectors within the region boots and loads exactly its binary. |
| `Integrity.RawSaveBoots` | entrypoints/entry.S:85-114 | For every program that fits the region, template and title the scripts give such a save. |
| `Integrity.OtherNameKeepsTemplateHeader` | loader/generate-tonyhax-mcs.sh:27-32 | Under another output name the save keeps the template's own address and length fields, for every template and title, and is as long as the longest of template, title and binary makes it. |
| `Integrity.OtherNameBootsIff` | loader/generate-tonyhax-mcs.sh:27-32 | Such a save boots at the region if and only if the template asks for its start and for a length of whole sectors that file and RAM hold, or for 0xFFFFFFFF. |
| `Integrity.OtherNameNeverBoots` | loader/generate-tonyhax-mcs.sh:27-32 | The shipped template holds the letters ADDRSIZE there, so with it every other name ends in the red screen. |
| `Integrity.LoadUnderOtherName` | loader/generate-tonyhax-mcs.sh:27-32 | When such a save boots and the template's length reaches past the CRC word, it is accepted if and only if the program carries its own CRC; otherwise the verdict is about the region as the load leaves it. |
| `Integrity.LoadedRamHoldsBinary` | loader/secondary.ld:1-30 | After the load and the clearing of the BSS, image and CRC word of any binary stand where the linker symbols point. |
| `Integrity.LoadedRamElsewhere` | loader/secondary.ld:1-30 | Nothing below the header buffer or above the 0x3F00-byte region changes. |
| `Integrity.LoadBinary` | loader/secondary.c:441-448 | Any binary, intact or not, is loaded and jumped to, RAM is known byte for byte, and `integrity_ok` is true if and only if image and CRC word agree. |
| `Integrity.LoadAndTest` | loader/secondary.c:441-448 | A raw save the scripts made from any program loads, and `integrity_ok` is true if and only if the program carries its own CRC. |
| `Integrity.LoadAltered` | loader/secondary.c:441-448 | A save that differs from an accepted one by a burst of at most 32 bits in what is loaded still boots, and `integrity_ok` is true if and only if the burst spared image and CRC. |
| `Integrity.LoadSave` | loader/secondary.c:441-448 | For any raw save at all: the outcome, and, when it boots, the verdict on the region as the load leaves it. |
| `Integrity.FieldsOrData` | entrypoints/entry.S:95-107 | A burst that hits address or length leaves every byte that could be loaded as it was. |
| `Integrity.LoadAlteredSave` | loader/secondary.c:441-448 | A burst of at most 32 bits anywhere in an accepted save: with the fields spared it boots and is rejected if and only if image or CRC were hit; with a field hit, a save that still boots and loads what the test covers is the original program and is accepted. |
| `Integrity.BuildRawSave` | loader/insert-tonyhax-crc.sh:18-27 | The build-time half turns every program that fits into a raw save of the same image with its own CRC. |
| `Integrity.BuildLoadAndTest` | loader/generate-tonyhax-mcs.sh:22-32 | End to end: CRC, packaging, container, entry point, BSS and test. Every program that fits is accepted, and RAM outside the region is untouched. |
| `Numerals.HexReadsBack` | loader/str.c:114-128 | An n-digit rendering holds n digits for `todigit` and reads back as the number, whenever it fits. |
| `Numerals.LowerHexReadsBack` | loader/bios.h:232-246 | So does the rendering in lower case. |
| `Numerals.DigitCodes` | loader/bios.h:232-246 | The value of every digit and letter of either case by its code, 9,999,999 for the rest, and exactly which characters are below 16. |
| `Format.MiniVsprintf` | loader/str.c:29-156 | For every format and fitting arguments the text of the token specification is written with a NUL after it, nothing else is, and the length is returned. |
| `Format.PutToken` | loader/str.c:33-149 | One pass of the outer switch prints one token, steps over it and takes its argument. |
| `Format.PutEscape` | loader/str.c:37-58 | A backslash pair prints a line feed, a carriage return, or both its characters. |
| `Format.PutConversion` | loader/str.c:65-140 | A percent pair prints its argument and takes it, or prints itself and takes none. |
| `Format.PercentC` | loader/str.c:66-71 | `%c` prints the character whose code it is given, and two values print alike if and only if they agree modulo 256. |
| `Format.PercentOthers` | loader/str.c:73-128 | `%s`, `%d` and `%x` print the text, the decimal rendering and the eight digits of the 32-bit pattern. |
| `Format.PairCodes` | loader/str.c:34-147 | The escapes print the codes 0x0A and 0x0D, every other pair both of its characters, and any other character itself. |
| `Format.PutText` | loader/str.c:73-81 | `%s` copies the text and nothing more. |
| `Format.CollectDigits` | loader/str.c:95-102 | The digit cells are collected backwards, in at most ten cells for every 32-bit value. |
| `Format.PutReversed` | loader/str.c:104-109 | The cells are written back in reading order. |
| `Format.PutDecimal` | loader/str.c:83-112 | `%d` writes the decimal rendering of every 32-bit value. |
| `Format.PutHex` | loader/str.c:114-128 | `%x` writes the eight digits of the 32-bit pattern. |
| `Format.FormatConcat` | loader/str.c:29-156 | A format that does not end in the middle of a token, followed by another, prints what the two print one after the other with the arguments shared out. |
| `Format.IncompleteFormat` | loader/str.c:48-51 | A format that does is a complete one and a lone last `%` or backslash. |
| `Format.DanglingDoesNotCompose` | loader/str.c:48-51 | Every format that does end in the middle of a token has a continuation with which it prints something other than the two one after the other. |
| `Format.ComposesIffComplete` | loader/str.c:29-156 | So for every format and its arguments, composing with whatever may follow holds if and only if the format does not end in the middle of a token. |
| `Format.PercentThenX` | loader/str.c:130-133 | For instance `%` prints a backslash and `x` an x, but `%x` a number. |
| `Format.TenCells` | loader/str.c:95-102 | No 32-bit value needs more than the ten cells of the buffer, the minimum included. |
| `Format.CellsReadBack` | loader/str.c:98-102 | The cells of every nonzero value, each taken as its distance from '0', add up to the value. |
| `Format.CellsOfNegative` | loader/str.c:98-102 | Each cell of a negative value mirrors around '0' the digit that belongs there, since `%` truncates toward zero. |
| `Format.DecimalIsStandardIff` | loader/str.c:83-112 | `%d` prints standard decimal if and only if the value is not negative, and then the canonical numeral, which reads back. |
| `Format.DecimalInjective` | loader/str.c:83-112 | No two values print alike, not even negative ones. |
| `Config.StartsWith` | loader/cfgparse.c:13 | `strncmp` with the key's length finds the key at a position of the text and nowhere else. |
| `Config.Strchr` | loader/cfgparse.c:15 | `strchr` returns the first occurrence from a position on, or none. |
| `Config.FindWanted` | loader/cfgparse.c:9-29 | NULL if and only if no line starts with the key; otherwise the position just past the key on the first line that does. |
| `Config.ParseHexLine` | loader/cfgparse.c:37-46 | The loop returns the numeral of all hexadecimal digits up to the end of the line, modulo 2^32. |
| `Config.LowerHexLineReadsBack` | loader/cfgparse.c:37-49 | A value written in lower case, after any characters that are no digits, parses to the value as well. |
| `Config.ConfigGetHex` | loader/cfgparse.c:31-50 | Success if and only if the key is there; the value of its first line, or the caller's variable unchanged. |
| `Config.LastEightDigits` | loader/cfgparse.c:41-43 | Modulo 2^32 only the last eight digits count. |
| `Config.OnlyLastDigitsMatter` | loader/cfgparse.c:37-49 | Two lines with the same last eight hexadecimal digits have the same value, whatever else stands on them or on other lines. |
| `Config.HexLineReadsBack` | loader/cfgparse.c:37-49 | A line of "=" and the `%x` rendering of a 32-bit value parses to the value, wherever it stands. |
| `Config.HexSettingRoundTrip` | loader/cfgparse.c:31-50 | In every configuration with no earlier line that starts with the key, key, "=" and `%x` rendering give the value back. |
| `Config.PrintThenParse` | loader/cfgparse.c:31-50 | The formatter's own output of `%s=%x` parses back to the value printed, for every key and every 32-bit value. |
| `Config.ConfigGetString` | loader/cfgparse.c:52-74 | Success if and only if the key is there; the value of its first line is written with a NUL after it and nothing else, or nothing at all. |
| `Config.SpaceCodes` | loader/str.c:5-18 | The characters that count as spaces are those with the codes 0x09 to 0x0D and 0x20. |
| `Config.ValueInCodesIff` | loader/cfgparse.c:58-73 | In codes: between key and value stand those six and 0x3D only, the value holds none of the six and starts with no 0x3D, and one of the six or the end follows it. |
| `Config.CopyWord` | loader/cfgparse.c:63-73 | The copy ends before the first space or the end of the text. |
| `Config.ValueUnique` | loader/cfgparse.c:58-69 | A key position has one value only. |
| `Config.StringSettingRoundTrip` | loader/cfgparse.c:58-73 | From a position in any text, separators, a word and space give the word as the value if and only if it does not start with "=". |
| `Config.SettingIsFirst` | loader/cfgparse.c:9-29 | Key, separators and token after any lines that do not start with the key are the setting that is found. |
| `Config.ReadSetting` | loader/cfgparse.c:52-74 | Then the caller's buffer holds the token and a NUL, and is otherwise as before. |
| `Config.ValueOnOwnLineIff` | loader/cfgparse.c:58-61 | The value lies on the key's own line if and only if something other than separators follows there. |
| `Config.EmptyValueTakesNextLine` | loader/cfgparse.c:58-61 | After any line of nothing but separators the first word of the following lines becomes the value, since line feeds are skipped with the other spaces. |
| `Font.UnpackLine` | loader/debugscreen.c:50-71 | One ROM byte becomes four bytes of pixel pairs, left pixel in the low half, and the rest of the buffer stays. |
| `Font.UnpackCharacter` | loader/debugscreen.c:46-72 | All fifteen lines of a character are unpacked in place. |
| `Font.UploadGlyph` | loader/debugscreen.c:75 | Writing a glyph puts it in place and touches no other glyph and nothing outside the font area. |
| `Font.DecompressFont` | loader/debugscreen.c:38-78 | For every ROM all 96 glyphs end up in place and nothing else changes. |
| `Font.TexelIsRomPixel` | loader/debugscreen.c:176-189 | Every pixel of every glyph is found, as 0xF or 0x0, at the texel the text routine addresses for it. |
| `Font.PixelIsBit` | loader/debugscreen.c:54-71 | The leftmost column of a line is bit 7 of its byte, the rightmost bit 0. |
| `Font.FontInFigures` | loader/debugscreen.c:74-75 | Where in video memory each pixel of each glyph lies, in cells and nibbles from column 640 on. |
| `Font.GlyphInFigures` | loader/debugscreen.c:177-182 | Codes 0x21 to 0x7F are drawn in table order, the backslash from the last place, and nothing else is drawn. |
| `LogScreen.DrawnCharacter` | loader/debugscreen.c:184-188 | Drawing a character turns its lit ROM pixels white and leaves every other pixel. |
| `LogScreen.StruckCharacter` | loader/debugscreen.c:184-192 | The two strikes together light the pixels of the glyph and their right neighbours. |
| `LogScreen.StruckInFigures` | loader/debugscreen.c:184-192 | In bits of the ROM: a pixel is struck if its own bit or the one to its left is set. |
| `LogScreen.DebugTextAt` | loader/debugscreen.c:158-198 | For every text and position each pixel on screen is white if its own character lights it and unchanged otherwise; backslash and undrawable characters included. |
| `LogScreen.RepeatedIsFormatted` | loader/debugscreen.c:240-243 | The repeat line is what the formatter makes of "%s (x%d)". |
| `LogScreen.ScrolledFurther` | loader/debugscreen.c:220-230 | Copying the next row up extends the scrolled part, reading rows that have not been overwritten. |
| `LogScreen.ScrollUp` | loader/debugscreen.c:220-230 | After the ascending loop every pixel of the log is the one sixteen lines below it before. |
| `LogScreen.ScrolledRows` | loader/debugscreen.c:220-230 | Then each row of the log shows the text the next row showed. |
| `LogScreen.LastRowRedrawn` | loader/debugscreen.c:246-264 | Clearing and redrawing the last row replaces its text and no other row's. |
| `LogScreen.OnlyLogRedrawn` | loader/debugscreen.c:246-264 | And no pixel outside the log is touched. |
| `LogScreen.DebugScreen.constructor` | loader/debugscreen.c:83-113 | The screen starts black, with font and all sixteen palette entries in place and an empty log. |
| `LogScreen.PaletteInFigures` | loader/debugscreen.c:34 | The palette is sixteen shades of grey, the first black and the last white. |
| `LogScreen.DebugScreen.DebugWrite` | loader/debugscreen.c:200-265 | After every line each pixel of the log is what the new log contents say, no pixel outside the log has changed, and the contents are the old ones with the line written. |
| `LogScreen.RowsInFigures` | loader/debugscreen.c:220-264 | What that means on screen: row r starts at line 80 + 16 r, character i at column 32 + 10 i, white where struck and black elsewhere. |
| `LogScreen.DebugScreen.DebugWriteFormat` | loader/debugscreen.c:200-265 | The same from format and arguments, through the formatter and its 64-byte buffer: the line written is what the format stands for, up to a NUL an argument put into it. |
| `LogScreen.RepeatLine` | loader/debugscreen.c:241 | The repeat line comes out of the formatter itself, for every text and count. |
| `LogScreen.WriteHistory` | loader/debugscreen.c:200-265 | Writing any history from the start leaves the log `LogAfter` describes, pixel by pixel; under the condition of `LogIsRunLengthTail` that is the last 22 runs. |
| `LogScreen.RunsExpand` | loader/debugscreen.c:214-244 | The runs are the run-length encoding of the history: they expand to it, none is empty, and neighbours differ. |
| `LogScreen.LogMirrorsHistory` | loader/debugscreen.c:214-244 | After any history rows, last line and counter are those of its run-length encoding, the counter modulo 2^32 and shown as a signed number. |
| `LogScreen.RepeatedIsCountedIff` | loader/debugscreen.c:238-241 | The `%d` of the wrapped counter shows the number of repetitions itself if and only if that is below 2^31. |
| `LogScreen.LogIsRunLengthTail` | loader/debugscreen.c:214-244 | The rows are the last 22 runs, with the count in figures for repeated ones, if and only if every count among them is below 2^31 and the history does not begin with exactly one empty line that is still on screen. |
| `LogScreen.NonEmptyStartIsRunLengthTail` | loader/debugscreen.c:214-244 | When the first line is not empty only the counts matter, and they fit in every history of fewer than 2^31 lines. |
| `Uart.FrameInFigures` | loader/patch-uart.S:19-22 | A frame is ten bits: low, bits 0 to 7 of the byte, high. |
| `Uart.CharactersInFigures` | loader/patch-uart.S:24-36 | Code 10 goes out as codes 13 and 10, every other code by itself. |
| `Uart.FrameWordBits` | loader/patch-uart.S:19-22 | The shifted and marked byte, from bit 0 up, is its frame. |
| `Uart.TwoFrames` | loader/patch-uart.S:33-36 | Two frames in one register go out in order. |
| `Uart.LoadFrames` | loader/patch-uart.S:19-36 | Register and count hold the frames of the character, with a carriage return before a newline. |
| `Uart.PortValues` | loader/patch-uart.S:92-95 | A one leaves bit 13 of the port clear and a zero sets it; bit 1 is set always. |
| `Uart.WaitToggle` | loader/patch-uart.S:103-107 | The wait ends at the first read that finds the flag changed. |
| `Uart.Putc` | loader/patch-uart.S:18-118 | The line carries exactly the frames of the character, and every bit, the last stop bit included, stands for exactly one toggle of the timer flag. |
| `Uart.TimedInReads` | loader/patch-uart.S:85-113 | What that means read by read: no read is skipped between bits, every read of a bit but the last finds the flag as before, and the last finds it changed. |
| `Uart.ReceiveCharacters` | loader/patch-uart.S:88-113 | An 8N1 receiver decodes the frames of any characters to those characters. |
| `Uart.ReceiveTransmission` | loader/patch-uart.S:18-113 | Any text, with any pauses, is received as itself with a carriage return before each newline. |
| `Uart.PutText` | loader/patch-uart.S:18-118 | Calling the transmitter for every character of a text drives a line from which the receiver takes that. |
| `Patcher.DecodeAfterEncode` | loader/patcher.c:7-15 | The address in a jump word is its destination if and only if that is a word address in the segment of the jump. |
| `Patcher.JumpFields` | loader/patcher.c:7-15 | The opcode fields are 2 for `j` and 3 for `jal`, above the word address; for 0x80001000 the words are 0x08000400 and 0x0C000400. |
| `Patcher.JumpArrives` | loader/patcher.c:7-10 | Executed, the word of `encode_j` leaves every register alone and arrives if and only if the destination is a word address in the segment of the delay slot. |
| `Patcher.CallArrives` | loader/patcher.c:12-15 | Executed, the word of `encode_jal` arrives under the same condition, puts the address behind the delay slot into register 31 and changes no other. |
| `Patcher.WarmbootJalReadsBack` | loader/bios.c:124-132 | `parse_warmboot_jal` reads back what `encode_jal` stored there, under the same condition, wherever in memory the code lies. |
| `Patcher.LoadImmediateLoads` | loader/patcher.c:17-25 | The two words, executed, leave the value in the register if and only if it is not register 0 or the value is zero, and no other register reads differently. |
| `Patcher.AntipiracyMemory` | loader/patcher.c:56-74 | The jumps go to the two syscall cases as they were before, the hook to the patch, and all else is unchanged. |
| `Patcher.VandalMemory` | loader/patcher.c:87-97 | The jump goes to the function the hook held before, the hook to the patch, and all else is unchanged. |
| `Patcher.FpbMemory` | loader/patcher.c:110-114 | The blob is in place, the hook calls it, and all else is unchanged. |
| `Patcher.OnlyHooksAndAreaChange` | loader/patcher.c:120-138 | Over the whole of `patcher_apply`, nothing changes but the area behind table B and the hooks of the patches installed, also when the first gives up; only hooks that are written must lie apart. |
| `Patcher.PatchesInPlace` | loader/patcher.c:120-138 | The blobs lie one right behind the other from entry 0x5E on, word for word but for the filled-in jumps. |
| `Patcher.HooksLeadToPatches` | loader/patcher.c:120-138 | The hooks lead to the blobs: the table entry holds the first one's address, and the word at 0x5B40 is a call with return address 0x5B48 that arrives at the second if and only if that lies below 0x10000000. |
| `Patcher.VandalChainsOn` | loader/patcher.c:79-101 | The game's patch leaves by a plain jump, registers untouched, to the function it replaced, if and only if a jump can reach that. |
| `Patcher.AntipiracyChainsOn` | loader/patcher.c:27-77 | The generic patch leaves by plain jumps to the original syscall cases 1 and 0, each if and only if a jump can reach it. |
| `Patcher.PlacesInTables` | loader/patcher.c:120-138 | The patches start 376 bytes behind table B, and a game is hooked 88 bytes into it. |
| `Patcher.CasesLookup` | loader/patcher.c:36-54 | The cases are found, word by word, through table C, the handler, its verifier and the load in it; case 1 is the one hooked. |
| `Patcher.GameSettingOk` | loader/patcher.c:120-129 | With a game to be hooked, table B in RAM and room behind it are all that the layout results ask for. |
| `Patcher.GenericSettingOk` | loader/patcher.c:120-132 | With the generic patch, the pointers on the way to the cases are all they ask for besides. |
| `Patcher.UnknownOpcodeInstallsNothing` | loader/patcher.c:47-51 | With any other opcode nothing of the first patch goes in, and the second takes its place. |
| `Patcher.Kernel.CopyBlob` | loader/patcher.c:57 | Exactly the blob's words are stored. |
| `Patcher.Kernel.InstallGenericAntipiracyPatch` | loader/patcher.c:27-77 | For an unknown opcode nothing changes; otherwise memory becomes what `AntipiracyMemory` describes, store for store in the order of the code, and the next address is just past the blob. |
| `Patcher.Kernel.InstallVandalPatch` | loader/patcher.c:79-101 | Memory becomes what `VandalMemory` describes, whatever it held, and the next address is just past the blob. |
| `Patcher.Kernel.InstallFpbPatch` | loader/patcher.c:103-118 | Memory becomes what `FpbMemory` describes, whatever it held, and the next address is just past the blob. |
| `Patcher.Kernel.PatcherApply` | loader/patcher.c:120-138 | The address threaded through the installers leaves memory as the layout specification says, for every boot file and console. |
| `Checksums.FixCrashChecksum` | entrypoints/fix-crash-checksum.sh:10-51 | The whole new state of the disk: an unknown region changes nothing, and every other call writes the checksum of the words outside the slot, an empty area included. |
| `Checksums.CrashSumIsTotal` | entrypoints/fix-crash-checksum.sh:38-45 | The checksum is 0x12345678 plus the total of the words but the tenth, modulo 2^32. |
| `Checksums.CrashSumOfZeros` | entrypoints/fix-crash-checksum.sh:38-45 | An area of zeros sums up to 0x12345678. |
| `Checksums.CrashSumAdds` | entrypoints/fix-crash-checksum.sh:38-45 | Raising one word by d raises the checksum by d modulo 2^32, and the tenth word does not matter. |
| `Checksums.RegionsInFigures` | entrypoints/fix-crash-checksum.sh:13-33 | The four names, and for each where the area starts and how many words it has. |
| `Checksums.OnlySlotChanges` | entrypoints/fix-crash-checksum.sh:51 | Bytes 420 to 423 of a European save and 676 to 679 of an American one hold the checksum, and no other byte changes. |
| `Checksums.CrashRepairVerifies` | entrypoints/fix-crash-checksum.sh:38-51 | A repaired save verifies, and repairing it again changes nothing. |
| `Checksums.CrashDetectsOneWord` | entrypoints/fix-crash-checksum.sh:38-45 | A save that verifies, altered in any one word outside the slot, no longer does. |
| `Checksums.SumCb4` | entrypoints/fix-cb4-checksum.sh:15-20 | The loop returns the byte total plus n(n - 1)/2. |
| `Checksums.Cb4NeverWraps` | entrypoints/fix-cb4-checksum.sh:15-20 | For at most 6376 bytes the sum stays below 2^32. |
| `Checksums.FixCb4Checksum` | entrypoints/fix-cb4-checksum.sh:15-26 | The whole new state of the disk. |
| `Checksums.TotalOfPieces` | entrypoints/fix-cb4-checksum.sh:15-20 | The total adds up over pieces, and is the byte for a single one. |
| `Checksums.Cb4InFigures` | entrypoints/fix-cb4-checksum.sh:15-26 | Of a whole save bytes 640 to 7015 are summed and bytes 7016 to 7019 written, and no other. |
| `Checksums.Cb4RepairVerifiesIff` | entrypoints/fix-cb4-checksum.sh:15-26 | The repair verifies, and is idempotent, if and only if the file reaches byte 7016, where the slot follows the summed bytes. |
| `Romdir.FindRomdir` | util/print-ps2-romdir.py:8-17 | True if and only if some line holds the RESET entry, and then the file stands at the first such line. |
| `Romdir.ResetInFigures` | util/print-ps2-romdir.py:14 | The entry searched for is any line with the name RESET. |
| `Romdir.ReadRow` | util/print-ps2-romdir.py:23-31 | A line is the end of the directory, an undecodable name or an entry. |
| `Romdir.LineReadsBack` | util/print-ps2-romdir.py:23-31 | A line of a name filled up to ten bytes, two bytes and a little-endian size is read back as that name and size, wherever it stands. |
| `Romdir.TotalFurther` | util/print-ps2-romdir.py:34 | Adding 15 and masking at every step is the same as adding up the rounded sizes modulo 2^32. |
| `Romdir.PrintRomdir` | util/print-ps2-romdir.py:19-34 | The lines printed are the entries up to the end, each with 0xBFC00000 plus the rounded sizes before it. |
| `Romdir.ListingInFigures` | util/print-ps2-romdir.py:20-34 | The first file is listed at 0xBFC00000 and a first file of 0x2700 bytes moves the next to 0xBFC02700. |
| `Romdir.ListedInOrderIff` | util/print-ps2-romdir.py:19-34 | The files listed follow one another without overlap if and only if the last one starts inside the 32-bit address space. |
| `Romdir.FilesDisjoint` | util/print-ps2-romdir.py:34 | Then any two are disjoint and neighbours are less than sixteen bytes apart. |

## Left out

- Loader.Console.EntryPoint: RAM is not specified after the red screen, and nothing is said after a read to addresses outside the 2 MB of RAM in the three segments that show it; further repetitions of RAM, directory search, opening of the file and the painting of the screen are not modelled.
- Loader.Console.FileRead: the return value for a length that is not a multiple of 128 and the short count at the end of the file are assumed; errors of the card itself are not modelled.
- BuildChain.InsertCrc: the linked file is one block of .text, .rodata and .data plus .crc; ELF headers, gaps between the three sections and `objdump` parsing are not modelled.
- Integrity.LoadAlteredSave: a jump to any other address than the start of the region is not followed.
- Integrity.RawSaveFields: `mcs2raw.sh` is modelled for one file; the output name it reads from the container is not.
- Format.MiniVsprintf: takes enough room in the destination for granted, and a `%s` argument is a text value that cannot overlap the destination; `mini_sprintf` only forwards to it.
- Config.FindWanted: the "Missing" message is not modelled. `strlen`, `strncmp` and `strchr` are taken by their contracts.
- Config.ConfigGetString: takes a value buffer longer than the configuration for granted.
- LogScreen.DebugScreen.DebugWrite: is given the formatted line, of any length. LogScreen.DebugScreen.DebugWriteFormat takes for granted that the message fits the 64-byte buffer; LogScreen.RepeatLine has room for its result. Unpacked glyphs, palette and log are kept apart in video memory as the coordinates say.
- LogScreen.DebugTextAt: positions are unbounded integers; the GPU's 11-bit vertex coordinates, which only texts far longer than a line would exceed, are not modelled.
- LogScreen.DebugScreen.constructor: the orca image, the title, the separator and the video standard are left out, none of which lies in the log area.
- Video.DrawCharacter, Video.CopyRectangle, Video.Upload and Video.BlackRectangle state what the GPU does with the commands; command words, texture cache and drawing offsets are not modelled.
- Uart.Putc: the timer is a flag that some later read always finds toggled; the baud rate in time and the coprocessor status register are not modelled.
- Patcher.Kernel.PatcherApply: pointers are aligned and in RAM, since a bus error would end the loader otherwise; the layout lemmas ask that hooks lie outside the new code and apart. The blobs are opaque words, the log messages are dropped, and `patcher_apply_softuart`, a plain copy, is left out.
- Patcher.LoadImmediateLoads: the or is an addition into a cleared lower half, which is all the pair of instructions needs. Register 0 is modelled as reading zero.
- Checksums.FixCrashChecksum: a missing file and the printed checksum are not modelled, here and in Checksums.FixCb4Checksum.
- Romdir.PrintRomdir: returns what it prints; how `print` formats it is not modelled.
- CD drive, GPU, SPU and lid handling, `main`, `try_boot_cd`, `unlock_drive` and `bios_reinitialize`: hardware and BIOS calls in sequence, with no algorithm behind them.
- `exe_file_okay`, `bios_is_ps1` and `bios_is_european`: single comparisons; the second enters as a parameter.
- `docs/ap_v2.c`: an unfinished transcription that does not compile.
