# Session-file type-tag scanner, modelled in Dafny

`scripts/extract_session_types.py` looks for files named `session.dat` and reads each one
into memory. In each file it finds every embedded PNG image by its 8-byte signature
`89 50 4E 47 0D 0A 1A 0A` (section 5.2 of the PNG specification). For each image it finds the
first `IEND` chunk-type marker at or after the signature (section 11.2.5) and skips the
4-byte marker plus the 4-byte CRC that follows it. It then reads the next four bytes as an
unsigned 32-bit little-endian "type tag". The tags are collected into a set per file and
into one global set. The script reports each file's count and sorted tags, then the sorted
global set.

This project models that scan and its bookkeeping:

- `bytes.dfy` (module `Bytes`): bytes as integers 0..255. `LE32` is the `struct.unpack("<I")`
  decoding. `EncodeLE32` is its inverse, and the round trip is proved in both directions.
- `search.dfy` (module `Search`): `Find`, the first-occurrence search of `bytes.find(sub, start)`.
  Its contract states that the result is the least occurrence at or after the start,
  or -1 exactly when there is none.
- `scan.dfy` (module `SessionScan`): the per-file `while` loop as the method `ScanFile`.
  It is proved equal to `TypeTags`, a pure description of the result: one tag per
  signature occurrence whose first following `IEND` leaves room for the tag. The proof
  uses the fact that the signature cannot overlap itself. So moving the cursor 8 bytes
  past each match skips no signature and revisits none. The ghost output `visited` shows
  that the loop stops at every occurrence, in ascending order.
- `report.dfy` (module `Report`): the loop over files with the global set `all_types`,
  and `sorted(...)` as `SortedTags`.
- `scenarios.dfy` (module `Scenarios`): concrete buffers with one image (tag 7), two images
  (tags 7 and 9), and one image whose tag is cut one byte short (no tag).

## Model

| member | source | states |
|---|---|---|
| `Bytes.LE32` | scripts/extract_session_types.py:32 | the decoded tag is below 2^32 and its low byte is the first of the four bytes |
| `Bytes.DecodeEncode` | scripts/extract_session_types.py:32 | decoding the little-endian encoding of any 32-bit value gives that value back |
| `Bytes.EncodeDecode` | scripts/extract_session_types.py:32 | re-encoding a decoded 4-byte window gives the same four bytes, so the decoding loses nothing |
| `Search.Find` | scripts/extract_session_types.py:25-28 | the result is -1 or an occurrence at or after the start, and no occurrence lies at or after the start and before the result (none at all when it is -1) |
| `Search.FindIsLeast` | scripts/extract_session_types.py:25-28 | the least occurrence at or after the start is the index `find` returns |
| `Search.FindMissing` | scripts/extract_session_types.py:25-27 | `find` gives -1 if and only if no occurrence remains at or after the start, which is exactly when the loop exits |
| `SessionScan.SignatureNoSelfOverlap` | scripts/extract_session_types.py:22 | two occurrences of the PNG signature start at least 8 bytes apart |
| `SessionScan.TagAfter` | scripts/extract_session_types.py:28-32 | searches for the first IEND at or after the signature, skips marker and CRC, and reads a tag only when `end_idx + 8 + 4` fits in the buffer; any tag it reads is below 2^32 (its full characterisation is `TagAfterSpec`) |
| `SessionScan.TagAfterSpec` | scripts/extract_session_types.py:28-32 | for a signature whose first following IEND is at `e`, a tag is read if and only if `e + 12` is within the buffer, and it is then the little-endian value at `e + 8`; 0 to 3 trailing bytes give a skip |
| `SessionScan.TagAfterNoIend` | scripts/extract_session_types.py:28-29 | with no IEND after the signature nothing is read |
| `SessionScan.TagsBelowNoneAbove` | scripts/extract_session_types.py:25-27 | when no signature remains at or after the cursor, the tags found so far are all of the file's tags |
| `SessionScan.TagsBelowStep` | scripts/extract_session_types.py:25-35 | one iteration adds exactly the tag of the signature it found, since no signature starts between the cursor and 8 bytes past that one |
| `SessionScan.VisitedStep` | scripts/extract_session_types.py:25-35 | moving the cursor to `idx + 8` keeps the list of visited signatures complete and ascending |
| `SessionScan.TypeTagsBounded` | scripts/extract_session_types.py:32-33 | every recorded tag is below 2^32 |
| `SessionScan.NoSignatureNoTags` | scripts/extract_session_types.py:19-27 | a buffer without a PNG signature yields the empty set |
| `SessionScan.ScanFile` | scripts/extract_session_types.py:19-35 | the loop terminates; the per-file set equals `TypeTags`; the global set afterwards is the old global set plus the per-file set, so it only grows and contains the file's tags; the loop stops at every signature occurrence, in ascending order |
| `Report.SortedTags` | scripts/extract_session_types.py:36 | the sorted list is strictly ascending (no duplicates) and holds exactly the set's elements |
| `Report.SortedTagsLength` | scripts/extract_session_types.py:36 | the printed count of unique tags equals the length of the printed list |
| `Report.SortedTagsUnique` | scripts/extract_session_types.py:39 | any strictly ascending list with the set's elements is the sorted list, so the output is determined by the set alone |
| `Report.MinimumExists` | scripts/extract_session_types.py:36 | helper behind `Least`: every non-empty tag set has a least element |
| `Report.SortedTagsHead` | scripts/extract_session_types.py:36 | the first entry of the sorted list of a non-empty set is its least tag |
| `Report.AllTagsMembership` | scripts/extract_session_types.py:33-34 | a tag is in the global set if and only if some file's set holds it |
| `Report.FileTagsInAll` | scripts/extract_session_types.py:33-34 | every per-file set is a subset of the global set |
| `Report.AllTagsReorder` | scripts/extract_session_types.py:18 | the global set does not depend on the order in which the files are processed |
| `Report.ExtractSessionTypes` | scripts/extract_session_types.py:12-39 | the report counts the files, gives one line per file in order with that file's tag count and sorted tags, and ends with the sorted union of all files' tags |
| `Scenarios.OneImage` | scripts/extract_session_types.py:22-35 | signature, 10 filler bytes, IEND, 4 CRC bytes and tag bytes `07 00 00 00` yield `{7}` |
| `Scenarios.TwoImages` | scripts/extract_session_types.py:22-35 | two such images with tags 7 and 9 yield `{7, 9}` |
| `Scenarios.TruncatedTag` | scripts/extract_session_types.py:29-31 | the one-image buffer with only 3 tag bytes yields the empty set |

## Left out

- The directory walk (`os.walk` over `../ASSETS`, lines 5-10) is filesystem I/O. The model takes
  the list of found files, each with its path and bytes, as a parameter in walk order.
  `os.walk` ignores a missing or unreadable root and yields nothing, so the run then reports
  zero files rather than failing.
- Opening and reading each file (lines 20-21) is I/O. A read failure is an exception the model does not represent.
- Printing (lines 12-14, 36, 38-39) is text output. The model returns the values printed:
  the file count, and per file the path, the count and the sorted tag list, then the sorted
  global list. Paths printed at lines 13-14 are the `path` fields of the input list.
- `bytes.find` with a negative start (counted from the end in Python) is not modelled. The
  script only passes non-negative starts.
- The script does no PNG validation (chunk lengths, CRCs), and neither does the model.
