# BezelProjectRenamer in Dafny

The model covers `renamer.py`. This script renames the per-game RetroArch configuration files (`<game name>.cfg`) that a bezel-pack setup installed, so that they match the file names a user gave their ROMs. For every entry of a ROM directory it computes a CRC-32:

- for a plain file, over the whole file;
- for a `.zip` or `.7z` archive, over the first member that is not empty and not a `.txt` note (a zip member is read back by its name).

It looks that checksum up in a CRC-to-game-name mapping merged from the system's DAT files. On a match, it renames `<game>.cfg` to `<rom stem>.cfg` in every emulator configuration directory, stopping at the first one that lacks the old file. ROMs whose checksum finds no name go into a "missing CRCs" report.

The modules follow the script's parts:

- `Checksum`: `calculate_crc32`.
  - A bitwise CRC-32 over bytes: reflected polynomial 0xEDB88320 with a preset and a final complement (the CRC of PKWARE APPNOTE.TXT section 4.4.7).
  - The 32-bit mask, and the `'08x'` rendering with its inverse hex parse.
- `Systems`: the `supported_systems` table, kept in its insertion order, and `get_system_from_rom_dir` as a first-match search over it after a POSIX `basename`.
- `DatFiles`: `parse_dat_file` and the merge loop.
  - A DAT file is taken as parsed: its games in document order, each with its `name` attribute and the `crc` attributes of its `rom` elements.
  - Both attributes may be absent (`Option`), since they are read with `.get`.
  - Both loops are methods proved against `DatMapping` and `MergedMapping`. These are folds (`Apply`) of single dictionary writes. `GameWrites` lists one game's writes, one per `rom` element in order, each pairing that element's `crc` with the game's `name`; `DatWrites` and `AllWrites` concatenate them per file and over all files.
  - Last-write-wins is proved about the folds.
- `Archives`: the member selection of `extract_crc_from_zip` and `extract_crc_from_7z`, over the sequence of members the archive library lists.
- `RomNames`: what is derived from a file name.
  - The suffix dispatch.
  - POSIX `splitext` and the two configuration names.
  - The lookup with its truthiness test.
- `Engine`: the main loop.
  - The configuration tree is an abstract file system from (namespace, file name) to contents.
  - `RenameFrom` is the namespace loop with its `break` and its `try`. `Step` handles one directory entry, and `Run` is the whole loop, which ends at an archive the library cannot open.
  - `UnmatchedNames`, `FirstUnreadable` and `FirstLacking` are independent descriptions of the results, and lemmas tie `Run` and `RenameFrom` to them.
  - The class `Engine.Renamer` holds the script's mutable state: the file system and `missing_crcs`. Its methods are the loops as written, proved equal to `Step`, `Run` and `RenameFrom`.

Four behaviours of the code are easy to miss:

- An archive that its library cannot open does not give an "absent" checksum. Nothing catches the exception, so the run stops at that entry. Renames already made stay, and no report is written.
- The sidecar test includes a bare `rtc` without a dot, and every suffix test is case-sensitive. So `Ultrartc` is skipped, and `GAME.ZIP` is checksummed as a plain file.
- An archive without a payload member gets the checksum `None`. The lookup `mapping.get(None)` finds the game of the last DAT `rom` element, over the files in order, that has no `crc` attribute.
- A zip member is read back with `open(filename)`, and the zip library resolves a name to the last member listed under it. If a later member repeats the payload's name, the later member's bytes are checksummed, even when that member is empty or comes after the payload.

## Model

| member | source | states |
|---|---|---|
| Checksum.Crc32 | renamer.py:101 | the CRC-32 of the data is below 2^32, so the mask `& 0xFFFFFFFF` keeps all of it |
| Checksum.RegisterAppend | renamer.py:101 | the CRC register is a left fold over the bytes: feeding `a + b` is feeding `a` and then `b` |
| Checksum.CheckValue | renamer.py:101 | the CRC-32 of the ASCII digits "123456789" is the standard check value 0xCBF43926 |
| Checksum.HexDigits | renamer.py:102 | exactly N characters, all lowercase hex digits: the `'0Nx'` rendering of a number below 16^N (above that bound Python widens the field and the function keeps only the lowest N digits; line 102 only renders values below 2^32) |
| Checksum.ParseHex | renamer.py:102 | reading N hex digits gives a value below 16^N |
| Checksum.ParseHexDigits | renamer.py:102 | reading back the N-digit rendering of a number below 16^N gives that number |
| Checksum.HexDigitsParse | renamer.py:102 | rendering a parsed hex string at its own width gives the string back |
| Checksum.CalculateCrc32 | renamer.py:100-102 | the checksum string has exactly 8 characters from `[0-9a-f]`, and read as hex it is the masked CRC-32 of the data |
| Checksum.CalculateCrc32IsCrc | renamer.py:100-102 | the checksum string read as hex is the CRC-32 itself |
| Checksum.CalculateCrc32Injective | renamer.py:100-102 | two byte sequences give the same checksum string exactly when their CRC-32 values are equal |
| Systems.Basename | renamer.py:69 | `basename` is the suffix of the path after its last '/': it contains no '/' and a '/' precedes it |
| Systems.FirstIndexFor | renamer.py:70-73 | the result is the first table index whose ROM directory matches, and None exactly when no entry matches |
| Systems.GetSystemFromRomDir | renamer.py:67-73 | returns a system only when its directory equals the basename and no earlier entry's does; None exactly when no entry matches |
| Systems.FirstIndexForHit | renamer.py:70-72 | a matching entry with no matching entry before it is the answer |
| Systems.Shadowed | renamer.py:70-72 | an entry whose directory also appears earlier in the table is never the answer |
| Systems.NesIsFamicom | renamer.py:29-43 | a directory named "nes" gives "Famicom" (line 29), not "NES" (line 43) |
| Systems.MsxIsMsx | renamer.py:37-38 | a directory named "msx" gives "MSX", not "MSX2" |
| Systems.ShadowedSystemsUnreachable | renamer.py:29-43 | no path whatsoever gives "NES" or "MSX2" |
| Systems.KeysAt | renamer.py:12-63 | "NES" and "MSX2" each name exactly one entry of the table: ("NES", "nes") and ("MSX2", "msx") are present, later in the table than ("Famicom", "nes") and ("MSX", "msx") respectively, and no other entry carries either name |
| Systems.LastComponentDecides | renamer.py:68-69 | a full path is looked up by its last component alone |
| Systems.TrailingSlashUnrecognised | renamer.py:69-73 | a path ending in '/' has an empty basename and is never recognised |
| DatFiles.Apply | renamer.py:119 | the dictionary after a series of `crc_to_name[crc] = game_name` writes; its keys and values are stated by `ApplyLastWriteWins` and its composition by `ApplyAppend` |
| DatFiles.DatMapping | renamer.py:111-120 | what `parse_dat_file` returns: the file's writes applied to an empty dictionary; `ParseDatFile` is proved to compute it |
| DatFiles.MergedMapping | renamer.py:156-158 | the per-file dictionaries combined by `update` in file order; `MergedIsAllWrites` and `MergedLastWriteWins` state what it holds, and `BuildMapping` is proved to compute it |
| DatFiles.ApplyLastWriteWins | renamer.py:119 | after a series of dictionary writes, a key is present iff it was already present or was written; a written key holds its last write's value; an unwritten key keeps its old value |
| DatFiles.ApplyAppend | renamer.py:115-119 | two batches of writes in a row are their concatenation |
| DatFiles.UpdateIsApply | renamer.py:158 | `m.update(d)`, where `d` is built from a fresh dictionary by writes, is those writes applied to `m` |
| DatFiles.MergedIsAllWrites | renamer.py:156-158 | merging the per-file dictionaries is making every write of every file, file by file, into one dictionary |
| DatFiles.MergedLastWriteWins | renamer.py:156-158 | the merged keys are exactly the `crc` attributes of all files; each maps to the game of the last (game, rom) pair carrying it, in file order and then record order |
| DatFiles.LastWriteExists | renamer.py:119 | every key that is written at all has a last write |
| DatFiles.ParseDatFile | renamer.py:111-120 | the nested loops leave exactly the dictionary of the file's writes made in document order |
| DatFiles.BuildMapping | renamer.py:156-158 | the merge loop leaves exactly the per-file dictionaries combined by `update` in file order |
| DatFiles.LaterFileWins | renamer.py:156-158 | when two files give one checksum different names, the name from the file read last is kept |
| Archives.FirstPayload | renamer.py:125-126 | finds the first member that is not empty and not a `.txt` note; None exactly when there is none |
| Archives.LastNamed | renamer.py:127 | the member `open(name)` reads: the last member listed under that name |
| Archives.ExtractCrcFromZip | renamer.py:123-130 | the first zip member with `file_size > 0` whose name does not end in `.txt` is selected, and the result is the checksum of the last member carrying the selected member's name; None exactly when no member qualifies |
| Archives.ExtractCrcFromSevenZip | renamer.py:133-142 | the same selection over 7z members, the size being the member's byte count |
| Archives.LaterMembersIgnored | renamer.py:125-130 | once a payload member is found, members listed after it never change the result, provided none of them repeats its name |
| Archives.DuplicateNameReadsLast | renamer.py:126-128 | with two members named "game.bin", the first not empty, the second one's bytes are checksummed, whatever their size |
| Archives.SkippedMembersIgnored | renamer.py:125-126 | empty members and `.txt` notes before the payload never change the result |
| Archives.ReadmeFirst | renamer.py:126 | a `readme.txt` listed before the ROM image does not hide it |
| RomNames.SuffixesExclusive | renamer.py:176-180 | no name ends both in `.zip` and `.7z`, and no sidecar name ends in either |
| RomNames.Classify | renamer.py:176-183 | each kind holds exactly when its own suffix test does: `.zip` for zip, `.7z` for 7z, a sidecar suffix for skip, none of them for a plain ROM |
| RomNames.ClassifyQuirks | renamer.py:176-180 | "Ultrartc" is skipped (bare `rtc`) and "GAME.ZIP" is a plain ROM (case-sensitive tests) |
| RomNames.RFind | renamer.py:188 | the index of the last occurrence of a character, or -1 when it does not occur |
| RomNames.SplitextRoot | renamer.py:188 | the root is a prefix of the name, and what is cut is a '.' followed by neither '.' nor '/' |
| RomNames.SplitextStem | renamer.py:188 | a stem that is not all dots, plus "." and a dot-free extension, loses exactly the extension |
| RomNames.SplitextNoDot | renamer.py:188 | a name without '.' is its own root |
| RomNames.NewConfigName | renamer.py:188 | the new name ends in ".cfg" and what precedes it is the ROM name's `splitext` root |
| RomNames.NewConfigNameOfStem | renamer.py:188 | a ROM named by a stem that is not all dots, a '.' and a dot-free extension gets the stem plus ".cfg" |
| RomNames.NewConfigNameNoDot | renamer.py:188 | a ROM name without '.' gets the whole name plus ".cfg" |
| RomNames.NewConfigNameLeadingDot | renamer.py:188 | a name that is one '.' and an extension keeps it: ".zip" gives ".zip.cfg" |
| RomNames.OldConfigName | renamer.py:189 | the old name ends in ".cfg" and what precedes it is the game name |
| RomNames.ConfigNamesAgree | renamer.py:188-189 | the old and new configuration names coincide exactly when the ROM name's `splitext` root is the game name |
| RomNames.GameNameFor | renamer.py:185-186 | a name is found exactly when the checksum is a key whose value is a present, non-empty name, and it is that value |
| RomNames.GameNameForMerged | renamer.py:156-158 | looked up in the merged mapping, a checksum yields `n` exactly when `n` is not empty and the last `rom` element carrying that checksum, over all DAT files in order, belongs to a game named `n` |
| Engine.Move | renamer.py:202 | `os.rename` within one namespace: the new name holds the old file's contents, the old name is gone unless both names are equal, and every other file is untouched |
| Engine.RenameFrom | renamer.py:192-207 | the namespace loop from a given position, with its `break`, dry-run test and `try`; described by `RenameFromLive`, `RenameLoopLive`, `RenameLoopDry` and `DryRunVisitsSameNamespaces` |
| Engine.FirstLacking | renamer.py:193-200 | finds the first namespace, in list order, that lacks the file; every namespace before it holds the file |
| Engine.RenameFromLive | renamer.py:192-207 | the namespace loop from any position keeps the invariant that the namespaces done so far have the file renamed and nothing else changed |
| Engine.RenameLoopLive | renamer.py:192-207 | a live loop renames the old configuration in exactly the longest prefix of namespaces that hold it (and whose rename does not raise), overwriting any file with the new name; it stops at the first namespace lacking it (`break`) or the first failing rename (`except`); no other (namespace, file) pair changes |
| Engine.RenameLoopDry | renamer.py:197-202 | a dry run changes no file and stops exactly at the first namespace lacking the old configuration |
| Engine.DryRunVisitsSameNamespaces | renamer.py:192-207 | the dry run ends where the live run ends, unless a live rename raises, in which case the dry run goes further |
| Engine.RomCrc | renamer.py:175-183 | the checksum by suffix: an archive's from its member list, or Unreadable when the library raises; a plain file's over its bytes (renamer.py:104-107); its failure case is `IsUnreadable`, which `FirstUnreadableIsFirst` and `RunAbortsAtFirstUnreadable` use |
| Engine.Step | renamer.py:169-211 | one turn of the main loop; described by `StepOnMissing`, `PayloadlessZipTakesCrclessName` and `SkippedEntryInert`, and computed by `Renamer.ProcessRom` |
| Engine.AfterLookup | renamer.py:185-211 | the lookup and then either the namespace loop or the unmatched list; described by `StepOnMissing` and `PayloadlessZipTakesCrclessName` |
| Engine.Run | renamer.py:166-211 | the whole main loop; described by `RunAbortsAtFirstUnreadable`, `RunCollectsUnmatched`, `DryRunKeepsFiles` and `SkippedEntryInert`, and computed by `Renamer.ProcessAll` |
| Engine.Report | renamer.py:213-214 | the report is written exactly when the unmatched list is not empty |
| Strings.EndsWith | renamer.py:126 | `str.endswith`; `RomNames.Classify` and `RomNames.SuffixesExclusive` state the suffix tests built on it |
| Strings.Join | renamer.py:214 | `"\n".join`; `Strings.LinesOfJoin` states that splitting the joined text into lines gives the parts back |
| Strings.LinesOfJoin | renamer.py:214 | at least one part and no part containing a newline: the parts joined by "\n" plus a final "\n", split into lines, are the parts |
| Engine.ReportLines | renamer.py:213-214 | split into lines, the report is the unmatched list itself, in order, provided no unmatched file name contains a newline |
| Engine.FirstUnreadableIsFirst | renamer.py:176-179 | `FirstUnreadable` is the first entry whose archive cannot be opened: none before it is unreadable |
| Engine.RunAbortsAtFirstUnreadable | renamer.py:169-183 | the run stops at, and names, the first entry whose archive library raises, and completes when there is none; a failed rename does not stop it |
| Engine.RunCollectsUnmatched | renamer.py:166-211 | the run appends exactly the unmatched files before that point to `missing_crcs`, each once and in listing order; directories and sidecars never appear |
| Engine.StepOnMissing | renamer.py:172-211 | one entry aborts the run exactly when its archive cannot be opened, and otherwise adds its name exactly when it is unmatched |
| Engine.PayloadlessZipTakesCrclessName | renamer.py:176-189 | a zip without a payload member is renamed after the game of a DAT `rom` element lacking `crc` |
| Engine.DryRunKeepsFiles | renamer.py:201-202 | in a dry run the configuration files end as they began, whether the run completes or aborts |
| Engine.SkippedEntryInert | renamer.py:172-181 | removing a directory or sidecar from anywhere in the listing changes nothing about the run |
| Engine.Renamer.constructor | renamer.py:166 | the engine starts on the given files with an empty unmatched list |
| Engine.Renamer.RenameConfigs | renamer.py:192-207 | the namespace loop, with its `break`, its dry-run test and its `try`, leaves the file system and stop that `RenameFrom` describes, and leaves the unmatched list alone |
| Engine.Renamer.ProcessRom | renamer.py:169-211 | one turn of the main loop leaves the file system, unmatched list and outcome that `Step` describes |
| Engine.Renamer.ProcessAll | renamer.py:166-214 | the main loop leaves the state and abort point that `Run` describes, and returns the report only when the run was not aborted |

## Left out

- Command-line handling and its early exits (renamer.py:76-88) are process plumbing. The ROM directory's basename enters `GetSystemFromRomDir` directly.
- The GitHub listing of emulator directories (renamer.py:92-97) is a network call. The namespaces are the `Env.namespaces` parameter.
- The listing and path joining of the DAT directory (renamer.py:145-150) are filesystem I/O: the DAT files are given, already parsed, to `BuildMapping`. The exit on zero DAT files (renamer.py:152-154) is not modelled. With no files the mapping is empty and every ROM is unmatched.
- The probe of the first configuration directory (renamer.py:160-164) is not modelled. It exits when the namespace list is empty or the directory is unreadable, and the model also accepts an empty namespace list.
- XML parsing (renamer.py:113-114) is left out: a DAT file is a sequence of parsed games.
- Decompression and stream seeking (renamer.py:124-128, 134-140) are the `Env.unzip` and `Env.unSevenZip` parameters. They give the member list, or None when the library raises.
- `os.listdir` of the ROM directory is a given listing. `os.path.isdir` is the `Directory` entry kind.
- Reading a plain ROM file is assumed to succeed.
- `os.path.exists` is membership in the file-system map.
- The path joins of the rename loop (renamer.py:194-195) are the pair (namespace, file name). Game names and ROM names are taken as plain names relative to their namespace: a name that is absolute or contains `..` would make `os.path.join` drop or escape the namespace, so that two namespaces could refer to one file, which the model does not capture.
- `os.rename` is `Move`, and whether it raises is the `Env.renameFails` parameter.
- Writing the report file is returned as text. A file name containing a newline would split across two report lines; `Engine.ReportLines` states the line-by-line reading only for names without one.
- Every `print` gated by `QUIET` and `DEBUG` is left out. `DRY_RUN` is a parameter instead of the source's constant.
- `readall()` of a 7z archive returns a dictionary, so its member names are distinct. The model accepts any member sequence.
- Engine.RenameLoopLive: assumes the namespace names are distinct, as the names of sibling directories are. Without that, a repeated namespace would meet its own renamed file.
- Engine.DryRunVisitsSameNamespaces: assumes the namespace names are distinct, for the same reason.
