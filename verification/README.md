# J2ME modding tools: a verified model of their byte and text transforms

This project models, in Dafny, the core of four Python tools for modding J2ME games:

- **The "Stolen in 60 secs" text editor.** `TOOLS/Stolen_in_60_secs_decrypted.py` works on a binary file of length-prefixed texts.
  - A scanner starts at a configurable offset and reads a 1-byte, 2-byte big-endian or 2-byte little-endian length prefix at each position.
  - It skips implausible lengths one byte at a time and collects the texts.
  - The texts are decoded and encoded through a one-byte character table (`CHAR_MAP`).
  - The exporter writes the kept header, then a fresh prefix and the bytes of each entry.
  - Texts can be edited one by one, or imported as a JSON list.
- **The Netsoftware B3D text patcher.** `TOOLS/Netsoftware_b3d_text_Limitado.py` finds runs of Cyrillic-table bytes in a `.b3d` file.
  - It dumps them as a translation text.
  - It writes translated lines back over the same runs, in place. Each line is cut or padded with 0xFF to the run's length, so the file length never changes.
- **The Netsoftware B3D image tool.** `TOOLS/Netsoftware_b3d_image_tool.py` swaps the 14-byte B3D image header for the standard 16-byte PNG prefix, and back again.
- **The JAD creator.** `TOOLS/JadCreator.py` checks the chosen JAR's name and picks the manifest out of the archive's member names. It keeps the MIDlet name, version, vendor and Nokia category lines, and assembles the JAD descriptor from them, the JAR's URL and its size.

## Modules

| file | module | contents |
|---|---|---|
| `wrappers.dfy` | `Wrappers` | `Option` and `Result` |
| `bytes.dfy` | `Bytes` | the `byte` type (0..255) |
| `pyints.dfy` | `PyInts` | Python's bitwise and, bitwise or, `>>` and `<<` on non-negative integers, and what they compute |
| `seq_facts.dfy` | `SeqFacts` | small sequence facts the proofs share |
| `pystrings.dfy` | `PyStrings` | the Python `str` operations the tools use: `strip`, `split`, `join`, `splitlines`, `upper`, `replace(x, '')`, `startswith`, `endswith`, `in`, decimal and hex formatting |
| `stolen_codec.dfy` | `StolenCodec` | the character table, the length prefixes, the scan, the serialiser and the JSON update, as functions with their lemmas |
| `stolen_editor.dfy` | `StolenEditor` | class `GameTextEditor`, whose methods run the loops of `load_file`, `parse_texts`, `update_text`, `export_file` and `import_json` over its fields |
| `b3d_text.dfy` | `B3dText` | `R`, `R_REV` and `L`; decoding and encoding; the block scan; the dump; the in-place patch of an `array<byte>` |
| `b3d_image.dfy` | `B3dImage` | the two header swaps and their round trips |
| `jad_creator.dfy` | `JadCreator` | path checks, the manifest search, the manifest loop and the descriptor; class `JadCreatorApp` holding the chosen path and the descriptor text |

The tools read and write files, open archives, show dialogs and parse JSON. In the model, all of these are inputs and outputs passed in:
- the bytes of a file;
- the text of the translation file;
- an archive's member names and each member's decoded text;
- a JAR's size;
- the list a JSON file holds;
- whether a `.hdr` file exists, as an `Option`.

Where a tool raises an exception and shows an error, the model returns an error value (`Result`, `Option` or `bool`). Except in the two cases named under "## Left out" (a JSON list with a non-string element, and a failing `apply_translation`), it also leaves the state as the tool leaves it.

Where the tools behave in a way their authors may not have meant, the model follows the code as written:
- **Stolen: stale header on reload.** `load_file` sets the header only when `0 < offset <= len(file)` (`TOOLS/Stolen_in_60_secs_decrypted.py:118-119`). Loading a second file with an offset of 0, or one larger than the new file's length, keeps the first file's header, and a later export writes it (`GameTextEditor.LoadFile`).
- **B3D: first letter left out of a block.** A B3D block can only begin on a byte 0x40..0x5E (`TOOLS/Netsoftware_b3d_text_Limitado.py:50`), although runs continue over 0x3E..0x5E. So a word that begins with А (0x3E) or Б (0x3F) is dumped without that first letter, and that byte is never patched.
- **B3D: the block at index -1.** A text line before the first `[` header line writes over the *last* block, because Python reads `blocks[-1]` that way (`TOOLS/Netsoftware_b3d_text_Limitado.py:105, 114`). A text line naming a block past the end raises `IndexError`. The model has both: `BlockAt` reads index -1 as the last block, and `ApplyLines` returns `None` for the missing block.
- **JAD: ".jar" removed everywhere.** `create_jad_content` removes *every* ".jar" from the file name before appending one (`TOOLS/JadCreator.py:272, 296`). So "a.jar.jar" gives the URL "a.jar", and "x.jarfile.jar" gives "xfile.jar" (`JadCreator.JarUrlRemovesEveryJar`).

## Model

| member | source | states |
|---|---|---|
| `PyStrings.Strip` | TOOLS/JadCreator.py:279 | `str.strip()`: the result is empty exactly when every character is whitespace; otherwise it begins and ends with a non-whitespace character |
| `PyStrings.StripSlice` | TOOLS/JadCreator.py:279 | `str.strip()` returns the slice of the text after its leading whitespace, and everything before and after that slice is whitespace |
| `PyStrings.RemoveAllAbsent` | TOOLS/JadCreator.py:272 | `s.replace(p, '')` leaves a text without `p` unchanged |
| `PyStrings.RemoveAllAfter` | TOOLS/JadCreator.py:272 | `s.replace(p, '')` keeps the text before the first occurrence of `p`, drops that occurrence and goes on after it |
| `PyStrings.Split` | TOOLS/JadCreator.py:275 | `str.split('\n')`: at least one piece, no piece holds the separator, and joining the pieces with the separator gives the text back |
| `PyStrings.SplitOfJoin` | TOOLS/JadCreator.py:309 | splitting the join of separator-free pieces at the separator gives back exactly those pieces |
| `PyStrings.SplitLines` | TOOLS/Netsoftware_b3d_text_Limitado.py:102 | `str.splitlines()`: no line it returns holds a line break |
| `PyStrings.SplitLinesOfJoin` | TOOLS/Netsoftware_b3d_text_Limitado.py:102 | lines without line breaks, joined with "\n" and read back with `splitlines()`, come back less a final empty line |
| `PyStrings.HexByteIsPadded` | TOOLS/Stolen_in_60_secs_decrypted.py:166 | the two hex digits of a byte are its zero-padded two-digit upper-case hex form, `f'{b:02X}'` |
| `StolenCodec.CharTableInjective` | TOOLS/Stolen_in_60_secs_decrypted.py:7-24 | no two bytes of `CHAR_MAP` share a character |
| `StolenCodec.ReverseCharMap` | TOOLS/Stolen_in_60_secs_decrypted.py:26 | `REVERSE_CHAR_MAP` sends each table character to its byte, and holds nothing else |
| `StolenCodec.DecodeByte` | TOOLS/Stolen_in_60_secs_decrypted.py:166 | a byte of the table decodes to its character; any other byte decodes to "[", its two upper-case hex digits `f'{b:02X}'`, then "]" |
| `StolenCodec.DecodeText` | TOOLS/Stolen_in_60_secs_decrypted.py:166 | the decoded text is never shorter than the bytes |
| `StolenCodec.DecodeTextLength` | TOOLS/Stolen_in_60_secs_decrypted.py:166 | the decoded text is exactly as long as the bytes if and only if every byte is in the table |
| `StolenCodec.DecodeTextInTable` | TOOLS/Stolen_in_60_secs_decrypted.py:166 | bytes that are all in the table decode to their characters, one per byte |
| `StolenCodec.EncodeChar` | TOOLS/Stolen_in_60_secs_decrypted.py:224 | every character encodes to a byte of the table |
| `StolenCodec.EncodeTableChar` | TOOLS/Stolen_in_60_secs_decrypted.py:224 | a table character encodes to its own byte |
| `StolenCodec.EncodeOtherChar` | TOOLS/Stolen_in_60_secs_decrypted.py:224 | a character the table lacks encodes to 0x00 |
| `StolenCodec.EncodeText` | TOOLS/Stolen_in_60_secs_decrypted.py:222-225 | one byte per character, every byte in the table |
| `StolenCodec.EncodeDecode` | TOOLS/Stolen_in_60_secs_decrypted.py:222-225 | re-encoding decoded bytes gives them back if and only if every byte is in the table (0x00..0x5C) |
| `StolenCodec.DecodeEncode` | TOOLS/Stolen_in_60_secs_decrypted.py:222-225 | decoding an encoded text gives the text back, with each character the table lacks turned into a space |
| `StolenCodec.FormatOf` | TOOLS/Stolen_in_60_secs_decrypted.py:139-153 | "1" selects the one-byte prefix, "2-be" the big-endian one, and any other name the little-endian one |
| `StolenCodec.PrefixAt` | TOOLS/Stolen_in_60_secs_decrypted.py:139-153 | the length read at a position is below the format's capacity (256 or 65536) |
| `StolenCodec.Word` | TOOLS/Stolen_in_60_secs_decrypted.py:147-152 | the two-byte length hi * 256 + lo is a 16-bit value |
| `StolenCodec.EncodePrefix` | TOOLS/Stolen_in_60_secs_decrypted.py:257-266 | the prefix is as wide as the format, and reads back as the length modulo the capacity |
| `StolenCodec.PrefixRoundTrip` | TOOLS/Stolen_in_60_secs_decrypted.py:257-266 | a length the format can hold, written as a prefix, reads back unchanged |
| `StolenCodec.StepAt` | TOOLS/Stolen_in_60_secs_decrypted.py:138-163 | at each position the scan stops (no full prefix, or a text past the end), skips one byte (prefix 0 or above 10000), or takes a text of 1..10000 bytes inside the buffer |
| `StolenCodec.ScanFrom` | TOOLS/Stolen_in_60_secs_decrypted.py:135-169 | every text is found at or after the offset |
| `StolenCodec.ScanAccepted` | TOOLS/Stolen_in_60_secs_decrypted.py:155-165 | every text found has 1..10000 bytes inside the buffer, announced by the prefix at its position |
| `StolenCodec.ScanOrdered` | TOOLS/Stolen_in_60_secs_decrypted.py:159-169 | texts come in increasing position and never overlap: each ends before the next one's prefix |
| `StolenCodec.ScanStops` | TOOLS/Stolen_in_60_secs_decrypted.py:138-163 | the scan finds nothing once fewer bytes than a prefix remain, or once a text would run past the end |
| `StolenCodec.ScanSkipsRejectedPrefix` | TOOLS/Stolen_in_60_secs_decrypted.py:155-157 | a prefix of 0 or above 10000 records nothing, and the scan resumes exactly one byte later |
| `StolenCodec.ParseEntryAt` | TOOLS/Stolen_in_60_secs_decrypted.py:159-168 | entry `i` of the parse is the entry of the i-th text found |
| `StolenCodec.ParseWellFormed` | TOOLS/Stolen_in_60_secs_decrypted.py:155-168 | each entry lies at or after the offset, holds the 1..10000 bytes after a prefix announcing their number, and carries their decoding |
| `StolenCodec.ParseNonOverlapping` | TOOLS/Stolen_in_60_secs_decrypted.py:159-169 | each entry's bytes end before the next entry's prefix |
| `StolenCodec.RecordsAppend` | TOOLS/Stolen_in_60_secs_decrypted.py:256-268 | the records of two runs of entries, laid end to end, are the records of the joined run |
| `StolenCodec.RecordsLength` | TOOLS/Stolen_in_60_secs_decrypted.py:256-268 | the records take one prefix plus the payload per entry |
| `StolenCodec.RecordsAt` | TOOLS/Stolen_in_60_secs_decrypted.py:256-268 | record `i` (prefix, then bytes) follows the records before it |
| `StolenCodec.CapturedHeader` | TOOLS/Stolen_in_60_secs_decrypted.py:118-119 | a header is kept exactly when 0 < offset <= file length, and it is the first `offset` bytes |
| `StolenCodec.HeaderToEmit` | TOOLS/Stolen_in_60_secs_decrypted.py:251-252 | the header is written exactly when "preserve" is set and a non-empty header was kept |
| `StolenCodec.ExportBytes` | TOOLS/Stolen_in_60_secs_decrypted.py:248-268 | the output is the header, if written, then the records; its length is the header's plus one prefix and one payload per entry |
| `StolenCodec.ScanTakesRecord` | TOOLS/Stolen_in_60_secs_decrypted.py:138-169 | at the start of an acceptable record, the scan takes exactly that record and goes on right after it |
| `StolenCodec.ScanTake` | TOOLS/Stolen_in_60_secs_decrypted.py:159-169 | where the scan takes a text, it records it and goes on after it |
| `StolenCodec.ParseTake` | TOOLS/Stolen_in_60_secs_decrypted.py:159-169 | where the scan takes a text, the parse starts with its entry |
| `StolenCodec.ScanRecords` | TOOLS/Stolen_in_60_secs_decrypted.py:138-169 | scanning an exact run of acceptable records finds one text per record, at the record's position |
| `StolenCodec.RecordHitsLocate` | TOOLS/Stolen_in_60_secs_decrypted.py:138-169 | each record found carries its own payload |
| `StolenCodec.ParseRecords` | TOOLS/Stolen_in_60_secs_decrypted.py:138-169 | parsing an exact run of acceptable records gives entries carrying exactly those payloads |
| `StolenCodec.ParseExportRoundTrip` | TOOLS/Stolen_in_60_secs_decrypted.py:138-268 | parsing, then exporting with the header preserved, rebuilds the file byte for byte |
| `StolenCodec.ExportOfRecords` | TOOLS/Stolen_in_60_secs_decrypted.py:248-268 | entries carrying the records after the offset, exported behind the kept header, rebuild the file |
| `StolenCodec.Imported` | TOOLS/Stolen_in_60_secs_decrypted.py:323-330 | the first min(list, entries) entries take the new text and its encoding; positions, lengths and every later entry are unchanged |
| `StolenCodec.ExportedTexts` | TOOLS/Stolen_in_60_secs_decrypted.py:293 | one text per entry, in entry order |
| `StolenCodec.ImportExportedTexts` | TOOLS/Stolen_in_60_secs_decrypted.py:323-330 | importing the exported texts of entries whose bytes are all in the table changes nothing |
| `StolenEditor.ExportPrefixBytes` | TOOLS/Stolen_in_60_secs_decrypted.py:257-266 | the bytes the exporter computes with Python's `&` and `>>` (`n & 0xFF`; `(n >> 8) & 0xFF, n & 0xFF`; or `n & 0xFF, (n >> 8) & 0xFF`) are the prefix that reads back as `n` modulo the format's capacity |
| `StolenEditor.WordBits` | TOOLS/Stolen_in_60_secs_decrypted.py:147-152 | the length the parser computes by shifting the high byte left by 8 and or-ing in the low byte is `hi * 256 + lo` |
| `PyInts.MaskLow` | TOOLS/Stolen_in_60_secs_decrypted.py:260-266 | `n & (2**k - 1)` is `n % 2**k`; so `n & 0xFF` is the low byte of `n` |
| `PyInts.ShiftRightDiv` | TOOLS/Stolen_in_60_secs_decrypted.py:262-266 | `n >> k` is `n // 2**k` |
| `PyInts.OrBelow` | TOOLS/Stolen_in_60_secs_decrypted.py:147-152 | `a << k` bitwise-or `b` is `a * 2**k + b` when `b < 2**k` |
| `StolenEditor.ReadPrefix` | TOOLS/Stolen_in_60_secs_decrypted.py:139-153 | the prefix is complete exactly when the format's width fits before the end, and then it holds the length the format reads there |
| `StolenEditor.GameTextEditor.constructor` | TOOLS/Stolen_in_60_secs_decrypted.py:45-47 | no header, no file, no entries |
| `StolenEditor.GameTextEditor.LoadFile` | TOOLS/Stolen_in_60_secs_decrypted.py:112-119 | the file is kept; the header is its first `offset` bytes when 0 < offset <= length, and otherwise the earlier header stays; entries are kept |
| `StolenEditor.GameTextEditor.ParseTexts` | TOOLS/Stolen_in_60_secs_decrypted.py:126-169 | with a file loaded, the entries become exactly the parse of the file from the offset; without one, nothing changes |
| `StolenEditor.GameTextEditor.UpdateText` | TOOLS/Stolen_in_60_secs_decrypted.py:217-228 | only entry `index` changes: it takes the new text and its encoding, one byte per character |
| `StolenEditor.GameTextEditor.ExportFile` | TOOLS/Stolen_in_60_secs_decrypted.py:233-268 | nothing without entries; otherwise exactly the export of the header and the entries |
| `StolenEditor.GameTextEditor.ExportJson` | TOOLS/Stolen_in_60_secs_decrypted.py:278-293 | nothing without entries; otherwise one text per entry, in order |
| `StolenEditor.GameTextEditor.ImportJson` | TOOLS/Stolen_in_60_secs_decrypted.py:303-330 | the entries become the import of the list; the file and the header are kept |
| `StolenEditor.ReexportUnchanged` | TOOLS/Stolen_in_60_secs_decrypted.py:106-268 | loading a file whose bytes after the offset are acceptable records, parsing it and exporting it with the header kept gives the file back |
| `B3dText.RChar` | TOOLS/Netsoftware_b3d_text_Limitado.py:7-12 | `R`: 0xFF is the space; 0x3E..0x5E are Cyrillic capitals |
| `B3dText.RRev` | TOOLS/Netsoftware_b3d_text_Limitado.py:14 | `R_REV` gives back a byte that `R` maps to the character |
| `B3dText.RRevOfRChar` | TOOLS/Netsoftware_b3d_text_Limitado.py:7-14 | `R_REV` undoes `R` on every byte `R` knows |
| `B3dText.RCharInjective` | TOOLS/Netsoftware_b3d_text_Limitado.py:7-12 | the 34 entries of `R` have 34 different characters |
| `B3dText.LCode` | TOOLS/Netsoftware_b3d_text_Limitado.py:16-22 | `L` gives bytes 0x00..0x24 or 0xFF |
| `B3dText.Decoded` | TOOLS/Netsoftware_b3d_text_Limitado.py:28-33 | one character per byte |
| `B3dText.DecodeText` | TOOLS/Netsoftware_b3d_text_Limitado.py:28-33 | one character per byte: the `R` character of a byte `R` knows, a space for any other byte |
| `B3dText.EncodeChar` | TOOLS/Netsoftware_b3d_text_Limitado.py:38-42 | at most one byte per character |
| `B3dText.EncodeUpper` | TOOLS/Netsoftware_b3d_text_Limitado.py:38-43 | never more bytes than characters |
| `B3dText.Encoded` | TOOLS/Netsoftware_b3d_text_Limitado.py:36-43 | `encode_text` never gives more bytes than the text has characters |
| `B3dText.EncodeText` | TOOLS/Netsoftware_b3d_text_Limitado.py:36-43 | the loop computes `Encoded` |
| `B3dText.UpperOfRChar` | TOOLS/Netsoftware_b3d_text_Limitado.py:38 | `upper()` leaves `R`'s characters unchanged |
| `B3dText.EncodeDecoded` | TOOLS/Netsoftware_b3d_text_Limitado.py:28-43 | encoding the decoding of bytes drawn from 0x3E..0x5E and 0xFF gives the bytes back |
| `B3dText.DecodeEncoded` | TOOLS/Netsoftware_b3d_text_Limitado.py:28-43 | decoding the encoding of a text made of `R`'s characters gives the text back |
| `B3dText.RunEnd` | TOOLS/Netsoftware_b3d_text_Limitado.py:53-55 | the inner loop stops at the first byte outside 0x3E..0x5E and 0xFF, or at the end |
| `B3dText.StartRunNotBlank` | TOOLS/Netsoftware_b3d_text_Limitado.py:50-58 | a run that begins on 0x40..0x5E never decodes to a blank text, so `strip()` never drops it |
| `B3dText.BlocksFromOk` | TOOLS/Netsoftware_b3d_text_Limitado.py:46-66 | the blocks found from `i` on are well formed, at or after `i`, in order and disjoint |
| `B3dText.BlocksWellFormed` | TOOLS/Netsoftware_b3d_text_Limitado.py:46-66 | each block begins on 0x40..0x5E, is a run of 0x3E..0x5E and 0xFF bytes inside the file that cannot be extended to the right, starting at the first 0x40..0x5E byte after a byte that cannot begin a block, and carries its decoding; blocks come in increasing offset without overlapping |
| `B3dText.BlocksFromCover` | TOOLS/Netsoftware_b3d_text_Limitado.py:49-65 | every byte 0x40..0x5E from `i` on lies in a block |
| `B3dText.BlocksCover` | TOOLS/Netsoftware_b3d_text_Limitado.py:49-65 | every byte 0x40..0x5E of the file lies inside a block |
| `B3dText.BlocksFromSkip` | TOOLS/Netsoftware_b3d_text_Limitado.py:64-65 | a byte outside 0x40..0x5E is stepped over |
| `B3dText.BlocksFromRun` | TOOLS/Netsoftware_b3d_text_Limitado.py:50-63 | a run is taken whole; it becomes a block unless its text is blank |
| `B3dText.ExtractBlocks` | TOOLS/Netsoftware_b3d_text_Limitado.py:46-66 | the loop computes exactly the blocks of the file |
| `B3dText.HeaderLine` | TOOLS/Netsoftware_b3d_text_Limitado.py:79 | the header line starts with "[" and holds no line break |
| `B3dText.DumpLines` | TOOLS/Netsoftware_b3d_text_Limitado.py:78-81 | three lines per block |
| `B3dText.DumpLinesSnoc` | TOOLS/Netsoftware_b3d_text_Limitado.py:78-81 | one more block adds its header line, its text and a blank line |
| `B3dText.DumpTexts` | TOOLS/Netsoftware_b3d_text_Limitado.py:73-84 | the dump is the dump lines of the file's blocks, joined by "\n" |
| `B3dText.BlockAt` | TOOLS/Netsoftware_b3d_text_Limitado.py:114 | `blocks[idx]` exists exactly for 0 <= idx < len, and for -1 when there is a block |
| `B3dText.Fit` | TOOLS/Netsoftware_b3d_text_Limitado.py:117-122 | exactly `n` bytes: a longer replacement is cut to `n`; a shorter one is kept and padded with 0xFF |
| `B3dText.Patch` | TOOLS/Netsoftware_b3d_text_Limitado.py:124-125 | the bytes land exactly at `[offset, offset + len)`; every other byte and the length are kept |
| `B3dText.ApplyLines` | TOOLS/Netsoftware_b3d_text_Limitado.py:104-125 | a successful application keeps the file length |
| `B3dText.ApplyLinesFrame` | TOOLS/Netsoftware_b3d_text_Limitado.py:104-125 | applying a translation keeps the length and every byte outside the blocks its text lines write over |
| `B3dText.ApplyLinesKeepsBlock` | TOOLS/Netsoftware_b3d_text_Limitado.py:104-125 | a block whose index no text line targets keeps its bytes |
| `B3dText.ApplyTrailingBlank` | TOOLS/Netsoftware_b3d_text_Limitado.py:111-112 | a blank last line changes nothing |
| `B3dText.RewriteBlock` | TOOLS/Netsoftware_b3d_text_Limitado.py:115-125 | writing a block's own text back over it leaves the file as it was |
| `B3dText.ApplyHeaderLine` | TOOLS/Netsoftware_b3d_text_Limitado.py:107-109 | a line starting with "[" moves to the next block and writes nothing |
| `B3dText.ApplySkipLine` | TOOLS/Netsoftware_b3d_text_Limitado.py:111-112 | a blank line is skipped |
| `B3dText.ApplyTextLine` | TOOLS/Netsoftware_b3d_text_Limitado.py:114-125 | any other line is encoded, fitted to the current block and written over it |
| `B3dText.ApplyNoBlock` | TOOLS/Netsoftware_b3d_text_Limitado.py:114 | a text line without a current block fails (`IndexError`) |
| `B3dText.ApplyDumpFrom` | TOOLS/Netsoftware_b3d_text_Limitado.py:104-125 | the dump lines of the blocks from `k` on leave the file as it was |
| `B3dText.DumpLinesNoBreaks` | TOOLS/Netsoftware_b3d_text_Limitado.py:79-81 | no dump line holds a line break |
| `B3dText.DumpReadBack` | TOOLS/Netsoftware_b3d_text_Limitado.py:102 | reading the dump back with `splitlines()` gives its lines, less the final blank one |
| `B3dText.ApplyDumpLines` | TOOLS/Netsoftware_b3d_text_Limitado.py:104-125 | the dump lines, less the final blank one, leave the file as it was |
| `B3dText.DumpApplyIdentity` | TOOLS/Netsoftware_b3d_text_Limitado.py:73-125 | applying the unedited dump of a file to that file gives the file back, byte for byte |
| `B3dText.DumpLinesLast` | TOOLS/Netsoftware_b3d_text_Limitado.py:81 | the dump of at least one block ends with a blank line |
| `B3dText.WriteBlock` | TOOLS/Netsoftware_b3d_text_Limitado.py:124-125 | the array becomes its old contents patched with the bytes at the offset |
| `B3dText.FitBytes` | TOOLS/Netsoftware_b3d_text_Limitado.py:117-122 | the truncate-then-pad loop computes `Fit` |
| `B3dText.WriteLine` | TOOLS/Netsoftware_b3d_text_Limitado.py:115-125 | the array becomes its old contents with the line's fitted encoding over the block |
| `B3dText.ApplyLine` | TOOLS/Netsoftware_b3d_text_Limitado.py:106-125 | one pass of the loop: what is left of the translation from the new state and index gives what the whole would give from the old ones; or the pass fails exactly when the translation does |
| `B3dText.ApplyTranslation` | TOOLS/Netsoftware_b3d_text_Limitado.py:94-125 | the blocks are well formed; success exactly when the translation's lines apply, and then the array holds exactly their result |
| `B3dImage.B3dToPng` | TOOLS/Netsoftware_b3d_image_tool.py:16-36 | fails exactly when the file has 14 bytes or fewer; otherwise the PNG starts with `PNG_HEADER`, is 2 bytes longer, and the kept header with the PNG after its prefix is the input |
| `B3dImage.PngToB3d` | TOOLS/Netsoftware_b3d_image_tool.py:39-58 | fails without `PNG_HEADER` (checked first) or without a kept header; otherwise gives the header then `data[16:]`, of length header + data - 16 |
| `B3dImage.B3dPngRoundTrip` | TOOLS/Netsoftware_b3d_image_tool.py:23-53 | to PNG and back with the kept header gives the B3D bytes back |
| `B3dImage.PngB3dRoundTrip` | TOOLS/Netsoftware_b3d_image_tool.py:23-53 | a converted PNG, taken back with a 14-byte header and converted again, gives the same PNG and header |
| `JadCreator.Basename` | TOOLS/JadCreator.py:209 | `os.path.basename`: the part after the last '/', holding no '/' |
| `JadCreator.CheckPath` | TOOLS/JadCreator.py:208-216 | a path is accepted exactly when its base name has no space and it ends with ".jar"; the space check comes first |
| `JadCreator.FindManifest` | TOOLS/JadCreator.py:256-260 | the first member name, in archive order, whose upper-case form contains "MANIFEST.MF"; none exactly when no name does |
| `JadCreator.ExtractManifest` | TOOLS/JadCreator.py:252-266 | the manifest member's text when there is a manifest name, none otherwise |
| `JadCreator.MapLinesAt` | TOOLS/JadCreator.py:278-279 | line `i` of the mapped lines is the map of line `i` |
| `JadCreator.LastWith` | TOOLS/JadCreator.py:278-287 | a kept line starts with its prefix |
| `JadCreator.LastWithIsLast` | TOOLS/JadCreator.py:278-287 | for each prefix the last stripped line starting with it is kept, and none only when no line starts with it |
| `JadCreator.ManifestLines` | TOOLS/JadCreator.py:275-279 | no stripped manifest line holds a "\n" |
| `JadCreator.PrefixesExclusive` | TOOLS/JadCreator.py:280-287 | no line starts with two of the four prefixes |
| `JadCreator.InfoOfSnoc` | TOOLS/JadCreator.py:280-287 | one pass of the if/elif chain updates what the loop has collected exactly as taking each prefix on its own would |
| `JadCreator.ExtractInfo` | TOOLS/JadCreator.py:275-287 | the loop collects, for each prefix, the last stripped line that starts with it |
| `JadCreator.JarUrl` | TOOLS/JadCreator.py:272-296 | the stripped custom URL when it is switched on and not blank; otherwise the file name with every ".jar" removed, then ".jar" |
| `JadCreator.JarUrlPlainName` | TOOLS/JadCreator.py:272-296 | a file name whose only ".jar" is its extension is its own URL |
| `JadCreator.JarUrlRemovesEveryJar` | TOOLS/JadCreator.py:272-296 | a ".jar" inside the name goes too: `u + ".jar" + w + ".jar"` gives `u + w + ".jar"` |
| `JadCreator.JadLines` | TOOLS/JadCreator.py:290-307 | 2 to 6 lines |
| `JadCreator.SomesMembers` | TOOLS/JadCreator.py:300-307 | exactly the present entries are appended |
| `JadCreator.SomesInOrder` | TOOLS/JadCreator.py:300-307 | the present entries are appended in key order |
| `JadCreator.JadLinesSpec` | TOOLS/JadCreator.py:278-307 | line 1 is "MIDlet-Jar-URL: " and the URL; line 2 is "MIDlet-Jar-Size: " and the size; then, in the order Name, Version, Vendor, Category and only for prefixes some stripped line starts with, the last such line; no other line |
| `JadCreator.JadLinesNoNewline` | TOOLS/JadCreator.py:298-307 | every line after the first is non-empty and holds no "\n" |
| `JadCreator.JarUrlNoNewline` | TOOLS/JadCreator.py:272-296 | the URL holds a "\n" only if the custom URL or the file name does |
| `JadCreator.JadContentEnd` | TOOLS/JadCreator.py:309 | the descriptor is not empty and does not end with "\n" |
| `JadCreator.JadContentSplit` | TOOLS/JadCreator.py:309 | splitting the descriptor at "\n" gives exactly its lines, when the custom URL and the file name hold no "\n" |
| `JadCreator.BuildJadLines` | TOOLS/JadCreator.py:290-307 | the appends build exactly the descriptor lines |
| `JadCreator.AppendIfPresent` | TOOLS/JadCreator.py:300-307 | `if key in info: append` adds the line exactly when the key is present |
| `JadCreator.BuildJadContent` | TOOLS/JadCreator.py:271-309 | the descriptor text, from the file name, the size, the manifest and the custom-URL settings |
| `JadCreator.JadCreatorApp.constructor` | TOOLS/JadCreator.py:18-21 | no JAR chosen, an empty descriptor, the custom URL switched off and empty |
| `JadCreator.JadCreatorApp.CreateJadContent` | TOOLS/JadCreator.py:271-309 | the descriptor field becomes the descriptor of the manifest; nothing else changes |
| `JadCreator.JadCreatorApp.ProcessJarFile` | TOOLS/JadCreator.py:221-250 | fails with "manifest not found", keeping the descriptor, exactly when there is no manifest or it is empty; otherwise the descriptor is built from the chosen JAR's base name |
| `JadCreator.JadCreatorApp.SelectFile` | TOOLS/JadCreator.py:201-219 | an empty path changes nothing; a refused path reports its error and changes nothing; an accepted one becomes the chosen JAR and is processed |
| `JadCreator.JadCreatorApp.RegenerateJad` | TOOLS/JadCreator.py:197-199 | with a JAR chosen it is processed again; without one nothing changes |

## Left out

- User interface: widgets, styles, rendering, search filtering, the status line, message boxes and dialogs. A cancelled dialog is the empty path or an absent input.
- Files and archives: reading and writing files, `zipfile`, `os.path.getsize`, `json.load` and `json.dump`, and `sys.argv` dispatch. Their contents are inputs and outputs of the model. An error while opening a file or archive, and the JSON "not a list" check, are not modelled.
- Output file names: `.png`, `.hdr`, `.txt`, `_traduzido.b3d`, the `edited_` and `_texts.json` defaults, and `download_jad`. These name files only.
- The offset text: `int(self.offset_var.get())` and the error it raises are not modelled; the offset is a natural number.
- Console output: the `print` lines of the B3D tools, including the truncation warning of `apply_translation`.
- Text decoding: the manifest's `decode('utf-8', errors='ignore')` and the UTF-8 reading of the dump are not modelled; texts are given as strings.
- `PyStrings.Upper`: Python's `str.upper()` is modelled per character, for the letters the tables can reach (Latin, Cyrillic, and the few other characters whose upper case lands in them). Upper-casing that changes the length, such as "ß" to "SS" and ligatures, is not modelled.
- `StolenEditor.GameTextEditor.ImportJson`: the JSON list is a list of strings. In the tool, a non-string element (for example `["a", 1]`) raises `TypeError` after the entries before it have been overwritten. That partial update, and the error shown, are not modelled.
- `B3dText.ApplyTranslation`: when a line names a missing block, the array keeps the patches of the lines before it, and the contract does not say what it holds. The tool then writes no output file.
- `JadCreator.Basename`: the base name splits at '/' only, as POSIX `os.path.basename` does. On Windows, `ntpath.basename` also splits at '\\' and after a drive such as "C:"; that is not modelled.
- `PyStrings.Strip`: whitespace is the set of characters Python's `str.isspace()` accepts.
- `B3dText.RRev`: `R` is keyed by the byte itself, rather than by the two-digit hex string the tool builds (`f"{b:02X}"`); the two agree on every byte.
- `B3dText.HeaderLine`: the contract states only what the apply step depends on: the line starts with "[" and holds no line break. The exact "OFFSET=0x%08X LEN=%d" text is built but not otherwise specified.
- `StolenEditor.GameTextEditor.ParseTexts`: the `except` around the loop is not modelled; nothing in the loop can raise once the file is loaded.
- `JadCreator.JadLines`: the function's own contract states only the line count; the layout and order are stated by `JadCreator.JadLinesSpec`.
