# Zwift WAD container decoder, modelled in Dafny

`zwf.py` reads Zwift's WAD containers. A container is:

- a 256-byte header: the magic `ZWF!`, then a little-endian body size at byte 248;
- an 8192-byte index of 1024 sparse 8-byte slots;
- the entry records. Each record has a 192-byte header, with a NUL-terminated ASCII path at
  bytes 4..99 and a little-endian size at bytes 104..107. Its body follows directly.

The tool lists a container's entries or extracts them below a destination directory. This
project models that decoder and proves what it guarantees:

- the envelope check (magic and declared size);
- how the index is rebuilt: live slots in slot order, rebased by a bias found at run time;
- how one record is decoded, and when its body is read;
- the listing, as a projection of the index onto lines;
- the extraction loop, over an abstract destination directory.

Modules:

- `Bytes` (`bytes.dfy`): the file as a byte sequence, positioned reads, and `<I` fields.
- `WadTypes` (`types.dfy`): errors, results, containers and decoded records.
- `Container` (`container.dfy`): `read_wad` and `read_entry_pointers`.
- `Records` (`records.dfy`): `cstring`, `read_wad_entry`, and the body-selector test.
- `Listing` (`listing.dfy`): `list_wad`, as a pure function producing lines.
- `Paths` (`paths.dfy`): the lexical `pathlib` operations the extraction uses, namely parsing,
  `/` and `parents`.
- `Extraction` (`extraction.dfy`): `extract_wad`. It is specified by functions over a tree
  value, and implemented by the class `Destination`, whose method updates the directory's
  contents in place.

Each Python exception becomes one `WadError` variant; nothing is raised. The warning about
trailing data is a returned flag. The file's size on disk is the length of the byte sequence.

Three behaviours of the code are worth stating up front:

- A body read that comes back short is not an error (zwf.py:104). The read simply returns fewer
  bytes (`Records.BodyLength`).
- An extraction that meets a failing entry stops there, and the files already written stay
  (zwf.py:132-147, `Extraction.StopsAtFirstFailure`, `Extraction.RefusedPathStops`).
- Two tests in the code do not do what they evidently mean: the body selector at zwf.py:103
  and the containment test at zwf.py:138-141. Both are listed under "## Findings". Each is
  modelled as written (`Records.ReadsBodyAsWritten`, `Paths.ContainedAsWritten`), with a lemma
  that shows the failing input. The decoder and the extraction use the corrected tests
  (`Records.ReadsBody`, `Paths.WriteKey`).

## Model

| member | source | states |
|---|---|---|
| Bytes.Slice | zwf.py:39-40 | a seek plus a read of n bytes returns the file's bytes from that offset; near the end of the file it returns fewer, and it never fails |
| Bytes.U32Le | zwf.py:47 | a `<I` field decodes to a value below 2^32 |
| Bytes.EncodeU32Le | zwf.py:47 | partner of the `<I` decode: a value below 2^32 has a four-byte encoding that decodes back to it |
| Bytes.EncodeDecode | zwf.py:47 | every four-byte field is the encoding of its decoded value, so decoding is a bijection |
| Container.HasMagic | zwf.py:42 | a file has the magic exactly when it holds at least four bytes and they are `Z`, `W`, `F`, `!` |
| Container.ShortHeader | zwf.py:40-47 | a file with the magic but shorter than 252 bytes cannot unpack its size field and fails as a short header |
| Container.DeclaredSize | zwf.py:47-48 | the size the header promises is 256 plus the u32 at bytes 248..251, so it lies in [256, 256 + 2^32) |
| Container.ReadWad | zwf.py:38-61 | an opened container holds exactly the file's bytes |
| Container.MagicCheckedFirst | zwf.py:42-45 | the open fails with a magic error exactly when bytes 0..3 are not `ZWF!`; that error carries the bytes found and comes before any size or index check |
| Container.SizeCheck | zwf.py:47-61 | a file shorter than declared fails with both sizes; otherwise the open succeeds exactly when the index does, and an index failure is the open's error; the warning flag is set exactly when the file is longer than declared; the pointers are the rebuilt index |
| Container.DecodeSlots | zwf.py:69-70 | the index block is cut into one slot per 8 bytes |
| Container.PaddingIgnored | zwf.py:70 | only a slot's first five bytes (pointer and flag) matter: the three pad bytes never change the decoded slots |
| Container.FullIndex | zwf.py:69-70 | a file long enough to hold the whole index gives exactly 1024 slots |
| Container.LivePointers | zwf.py:75 | the filtering comprehension keeps at most one pointer per slot |
| Container.LiveIndices | zwf.py:75 | reference definition: strictly increasing slot numbers, exactly the in-use slots |
| Container.LivePointersFollowSlots | zwf.py:75 | the k-th live pointer is the pointer of the k-th in-use slot: one per live slot, slot order, nothing sorted or dropped |
| Container.MinOf | zwf.py:72 | the minimum is an element of the sequence and at most every element |
| Container.Bias | zwf.py:72 | the bias maps every live pointer to at least 8448, and some live pointer to exactly 8448 |
| Container.IndexBlock | zwf.py:69 | the index read is at most 8192 bytes, and exactly 8192 when the file holds them |
| Container.ReadEntryPointers | zwf.py:64-75 | every rebuilt offset is at least 8448, the byte right after the index block |
| Container.IndexIsLiveSlotsInOrder | zwf.py:70-75 | a rebuilt index has one offset per in-use slot, in slot order, each that slot's pointer minus the bias |
| Container.BiasCorrection | zwf.py:72-75 | the smallest live pointer maps to 8448, every offset is at least 8448, and rebasing keeps the difference between any two pointers |
| Container.IndexFailures | zwf.py:72-75 | with no live slot the rebuild fails (min of nothing), it fails on the assert exactly when the bias is zero, and it succeeds exactly when neither happens |
| Container.MisalignedIndex | zwf.py:70 | an index block whose length is not a multiple of 8 cannot be unpacked, and only such a block fails that way |
| Container.SingleLiveSlot | zwf.py:72-75 | with a single live slot the index is [8448], unless that slot's pointer is already 8448 (zero bias) |
| Records.CString | zwf.py:78-82 | the result is the bytes before the first NUL and holds no NUL; with no NUL there is no result (the `end < 0` branch is unreachable) |
| Records.CStringRoundTrip | zwf.py:78-82 | a NUL-free path written with a terminator and any padding reads back unchanged |
| Records.AsciiDecode | zwf.py:94 | decoding succeeds exactly when every byte is below 0x80; each character then has its byte's code |
| Records.Truthy | zwf.py:103 | Python truthiness of the selector: a predicate object is always true, a flag is its value |
| Records.ReadsBody | zwf.py:103 | corrected selector test: a predicate's own answer decides whether the body is read |
| Records.ReadsBodyAsWritten | zwf.py:103 | the test as written: any predicate means the body is read; a flag decides by its value |
| Records.DecodePath | zwf.py:94 | a decoded path is shorter than the 96-byte field |
| Records.PathBytes | zwf.py:94 | a decoded path is the field's bytes up to a NUL inside the record header |
| Records.ReadWadEntry | zwf.py:85-106 | a decode succeeds only for an offset in the index; the body is present exactly when the selector asks for it |
| Records.EntryPath | zwf.py:90-94 | the path is the non-NUL bytes from offset ptr+4, ending at a NUL before ptr+100 |
| Records.EntrySize | zwf.py:96 | the size is the u32 at ptr+104..ptr+107, and the file holds those bytes |
| Records.EntryBody | zwf.py:103-104 | a body read is the bytes from ptr+192, at most `size` of them |
| Records.BodyLength | zwf.py:104 | a body is never longer than the size field, and exactly that long when the file holds the bytes |
| Records.EntryErrors | zwf.py:88-96 | an offset not in the index fails as such; a path field with no NUL fails as unterminated; a terminated path with a byte of 0x80 or above fails to decode as ASCII; a record too short to hold its size field fails as such |
| Records.EntryDecodes | zwf.py:88-106 | a record decodes exactly when its offset is in the index, its path field has a NUL with only ASCII bytes before it, and the file holds its size field |
| Records.MetadataIndependentOfSelector | zwf.py:94-103 | path, size and success do not depend on the selector |
| Records.PredicateIgnoredAsWritten | zwf.py:103 | the counterexample: a predicate that rejects a record still gets its body read as written, but not by the corrected test |
| Records.AsWrittenIsSelectAll | zwf.py:103 | the two tests agree on plain flags, so listing is unaffected; as written, any predicate acts like the select-everything predicate |
| Listing.DecimalString | zwf.py:117-119 | the size column is a non-empty string of decimal digits with no leading zero; it starts with `0` only for the size 0 |
| Listing.DecimalRoundTrip | zwf.py:117-119 | the decimal size column reads back as the size |
| Listing.RenderLine | zwf.py:113-121 | every printed line ends with the entry's path |
| Listing.LineLayout | zwf.py:113-121 | a line ends with the path; a long line has a size column (decimal, or the human-readable text) and one space before the path |
| Listing.ListFrom | zwf.py:110-121 | the loop emits at most one line per remaining pointer, and exactly one per pointer when nothing fails |
| Listing.ListFromIsProjection | zwf.py:110-121 | the generic loop emits one rendered line per successfully decoded pointer, in order, and stops at the first failing pointer with its error |
| Listing.ListFromLine | zwf.py:110-121 | line k of the generic loop is the rendering of the k-th pointer's record, which decoded |
| Listing.ListWad | zwf.py:109-121 | a listing has at most one line per entry pointer, and exactly one per pointer when no record fails |
| Listing.ListWadStops | zwf.py:110-111 | a listing without failure has one line per entry pointer; a failed one stops at the first record that fails to decode, and the error is never a missing pointer |
| Listing.ListWadSucceeds | zwf.py:110-121 | a container whose every record decodes lists completely, one line per entry pointer |
| Listing.ListedLine | zwf.py:110-121 | line k renders the record at the k-th entry pointer, read without its body |
| Paths.LeadingSlashes | zwf.py:138 | counts exactly the leading `/` characters |
| Paths.RootOf | zwf.py:138 | a path is relative exactly when it does not start with `/` |
| Paths.SplitSlash | zwf.py:138 | splitting gives at least one piece, and no piece holds `/` |
| Paths.SplitJoin | zwf.py:138 | splitting at `/` loses nothing: joining the pieces gives the string back |
| Paths.SplitPlain | zwf.py:138 | a string with no `/` is a single piece |
| Paths.SplitAtSlash | zwf.py:138 | a string splits at its first `/` into the part before it and the pieces after |
| Paths.NormalParts | zwf.py:138 | parsing keeps exactly the pieces that are segments: empty pieces and `.` go, `..` stays; order and repetition are stated by the two lemmas below |
| Paths.NormalPartsOfPiece | zwf.py:138 | a single piece is dropped when it is empty or `.`, and kept as itself otherwise |
| Paths.NormalPartsAppend | zwf.py:138 | normalising a concatenation is the concatenation of the normalised halves, so pieces keep their order and their count |
| Paths.NormalPartsOfNormal | zwf.py:138 | pieces that are already segments are kept as they are |
| Paths.ParsePath | zwf.py:138 | every part of a parsed path is a segment; the path has no root exactly when the string does not start with `/` |
| Paths.Join | zwf.py:138 | `/` with an absolute right side gives that side; with a relative one it appends its segments |
| Paths.IsParentOf | zwf.py:139 | a path is among the parents of another exactly when it has the same root and its parts are a proper prefix of the other's |
| Paths.ContainedAsWritten | zwf.py:138-139 | the test as written: a relative entry passes exactly when it has a segment; an absolute one passes exactly when the destination is among its parents |
| Paths.Resolve | zwf.py:145-147 | resolving `..` never lengthens a path |
| Paths.ResolveAppendPlain | zwf.py:145-147 | appending segments without `..` commutes with resolution |
| Paths.WriteKey | zwf.py:138-141 | corrected containment test: an entry is accepted exactly when the lexical test passes and its path has no `..`; it is then written at a non-empty key of plain segments below the destination |
| Paths.WriteKeyStaysInside | zwf.py:138-147 | an accepted entry still lies below the destination once every `..` is resolved |
| Paths.RelativeEntries | zwf.py:138-141 | a relative entry is accepted exactly when it has a segment and no `..`, and is written at its own segments; an empty path is refused, and so is an absolute one under a relative destination |
| Paths.ParseClimb | zwf.py:138 | `../name` parses as the segments `..` and `name` |
| Paths.EscapeAsWritten | zwf.py:138-141 | counterexample: with destination `out`, `../name` passes the test as written, yet resolves to `name`, outside `out`; the corrected test refuses it |
| Extraction.Ancestors | zwf.py:145 | the directories above a key are exactly its proper non-empty prefixes |
| Extraction.Write | zwf.py:145-147 | a write fails exactly when the key is a directory or one of its ancestors is a file; otherwise the key holds the body, every other file is unchanged, and the directories gained are exactly the key's ancestors |
| Extraction.WritePreservesValid | zwf.py:145-147 | a write at a safe key keeps the tree one the file system can hold |
| Extraction.Visit | zwf.py:133-147 | a failed pass changes nothing; a record that fails to decode fails the pass with its error; an entry without a body is skipped; a refused path fails with that path; an accepted path passes exactly when its write succeeds, and the tree is then that write's result |
| Extraction.Steps | zwf.py:132-147 | a run without failure decoded every pointer |
| Extraction.Extract | zwf.py:124-149 | a destination that is not an empty directory fails the extraction and changes nothing; a run without failure started from an empty directory |
| Extraction.FailureIsFinal | zwf.py:132-141 | once a pass fails, the later entries change nothing |
| Extraction.NoRefusedPath | zwf.py:132-141 | a run without failure refused no path: every entry with a body had its path accepted |
| Extraction.RefusedPathStops | zwf.py:132-141 | an entry with a body whose path is refused ends the run with that path as the error, keeping what the earlier entries wrote |
| Extraction.StopsAtFirstFailure | zwf.py:132-141 | a failed run stopped at one entry: the entries before it all passed, what they wrote stays, and the failure is that entry's |
| Extraction.StepsPreserveValid | zwf.py:132-147 | the loop keeps the destination a valid tree whose every place is below the destination |
| Extraction.EveryFileFromAnEntry | zwf.py:132-147 | every file was there before or was written by an entry, at the key its path names and with its body |
| Extraction.LastWriteWins | zwf.py:146-147 | after a successful run, a key holds the body of the last entry written there |
| Extraction.EveryWriterLands | zwf.py:132-147 | after a successful run, every entry that has a body has a file at its key |
| Extraction.ExtractChecksDestination | zwf.py:126-130 | a destination that is not a directory, or is not empty, is refused before anything is decoded or written |
| Extraction.ExtractPreservesValid | zwf.py:124-149 | an extraction leaves a valid tree, all of it below the destination |
| Extraction.ExtractedFilesAreSelectedEntries | zwf.py:133-147 | every extracted file comes from an entry the selector accepted, at that entry's key, with its body |
| Extraction.Destination.WriteFile | zwf.py:145-147 | the in-place write changes the directory exactly as `Write` says, and changes nothing when it fails |
| Extraction.Destination.ExtractWad | zwf.py:124-149 | the loop leaves the directory holding the tree `Extract` computes and reports its failure, so the lemmas above apply to it |

## Left out

- `main`, the docopt usage text and the `__main__` block (zwf.py:21-31, 152-187): these are the command line. They cover opening the file, choosing the command, and printing errors and tracebacks.
- `hurry.filesize.size` (zwf.py:115) is a foreign library. It is the parameter `humanSize`, and only its place in the line is stated.
- `fnmatch.fnmatchcase` (zwf.py:171) is a foreign library. The glob becomes an arbitrary predicate over path and size, through `Records.Selector`.
- `warnings.warn` (zwf.py:55) is the returned flag `trailingData`. The message text is not modelled: it prints the actual size twice.
- Container.ReadWad: a trailing-data warning is a side effect in the source, so it is emitted even when the index rebuild then fails. In the model the flag is lost with the error.
- `os.fstat` (zwf.py:49) is the length of the byte sequence.
- Real file I/O is not modelled: `seek`, `read`, `mkdir`, `open`, `write` and the verbose prints. The destination directory is an abstract tree: a map from keys (segment sequences below the destination) to bytes, and a set of directories.
- Extraction.Destination.ExtractWad: keys are kept relative to the destination. An absolute entry path under an absolute destination is written at its segments below the destination.
- Extraction.Write: symbolic links, permissions, full disks and other operating-system errors are not modelled. The only failures modelled are a file where a directory is needed, or a directory where the file goes.
- Paths.WriteKey: the corrected containment test refuses every path with a `..` segment, including ones such as `a/../b` that stay inside the destination. It is stricter than needed, never weaker.
- Records.ReadWadEntry: the `UnicodeDecodeError` of a non-ASCII path is the error `NonAsciiPath`. Its message is not modelled.
- The `CommandError` message texts are not modelled. Only which error is raised is modelled.

## Findings

| source | as written | input that shows it | evidently intended | confidence | as-written member | corrected member |
|---|---|---|---|---|---|---|
| zwf.py:103 | `callable(s) and s(entry) or s` parses as `(callable(s) and s(entry)) or s`; a predicate object is always truthy, so every record's body is read | extracting with glob `*.xml` and an entry `a.bin`: the predicate returns False, yet the body is read and the file written | the predicate's answer decides whether the body is read, so the glob filters the extraction | not executed | Records.ReadsBodyAsWritten, Records.PredicateIgnoredAsWritten | Records.ReadsBody, used by Records.ReadWadEntry |
| zwf.py:138-141 | `dest_dir not in entry_path.parents` is a lexical prefix test, and `..` segments pass it | destination `out`, entry path `../escape.txt`: `out/../escape.txt` has `out` among its parents, and the file lands at `escape.txt`, outside `out` | an entry whose path would climb out of the destination is refused | not executed | Paths.ContainedAsWritten, Paths.EscapeAsWritten | Paths.WriteKey, Paths.WriteKeyStaysInside, used by Extraction.Visit |
