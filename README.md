# rs3 storage layer and statement parser, modelled in Dafny

rs3 is a small SQLite-like database written in Rust. It has one table of
fixed-width rows: a `u32` id, a 32-byte username and a 255-byte email, so
each row is 291 bytes. Rows are packed 14 to a 4096-byte page. A page cache
(`Pager`) holds 100 page buffers over a single database file. A
read-eval-print loop parses `insert <id> <username> <email>` and `select`
lines into statements and executes them against the table. This project
models that core and proves, about the model:

- the layout constants and the `row_slot` stride arithmetic;
- the row codec: round trips in both directions, and a frame condition
  saying nothing outside the row's slot changes;
- the page cache: preloading at open, the all-zero "not loaded" re-fetch,
  and whole-page and prefix flushes to the file;
- `db_close` as a flush-and-reset loop over the pages, and the round trip
  from inserting through closing to reopening;
- the cursor state machine;
- `prepare_statement`: its order of checks, its error cases, and the exact row
  it builds;
- `execute_insert` / `execute_select` as "append a row" and "return the rows
  in insertion order".

Modules, one per concern:

| file | module | models |
|---|---|---|
| `wrappers.dfy` | `Wrappers` | Rust's `Option` |
| `bytes.dfy` | `Bytes` | `u8`, `u32`, zero buffers and `copy_from_slice` |
| `disk_file.dfy` | `DiskFile` | the database file as a byte sequence, with positional reads and writes |
| `layout.dfy` | `Layout` | `src/table.rs`: constants, `Row`, `row_slot`, the row codec |
| `page_cache.dfy` | `PageCache` | `src/pager.rs`: the `Pager` class and the functions that specify it |
| `tables.dfy` | `Tables` | `src/table.rs`: the `Table` class, `db_open`, `db_close`, serialization, durability lemmas |
| `cursors.dfy` | `Cursors` | `src/cursor.rs` |
| `lexing.dfy` | `Lexing` | the `split_whitespace` and `parse::<u32>` that `prepare_statement` uses |
| `repl.dfy` | `Repl` | `src/repl.rs`: statements, preparation and execution |

The state that Rust updates in place is kept as state here:

- `Pager` is a class. Its `pages` field is an `array` of 100 page buffers.
  `pager_open` fills it in a loop, `fetch_page` replaces one buffer, and
  `flush` rewrites the file field.
- `Table` is a class. `serialize_row` splices bytes into one buffer, and
  `db_close` loops over the buffers.
- `Cursor` is a class whose `advance` method updates its fields. `Statement` is
  a class whose fields `prepare_statement` (`PrepareStatement`) writes in place.

Each method is tied to a function on values, and the lemmas are proved about
those functions:

| method | specifying function |
|---|---|
| `Pager.Open` (the constructor) | `OpenedPages` |
| `FetchPage` | `Fetched` |
| `Flush` | `Flushed` |
| `Close` | `ClosedFile` and `ClosedPages` |
| `FlushWholePages` (the loop of `Close`) | `FlushFullPages` |
| `FlushTrailingPage` (the last step of `Close`) | `Flushed` |
| `SerializeRow` | `WriteRow` |
| `ExecuteInsert` | `InsertRow` |
| `ExecuteSelect` | `RowsOf` |
| `PrepareStatement` | `Prepare` |
| `Advance` | `Advanced` |

The file is the sequence of its bytes:

- A read past end-of-file yields zeros.
- A non-empty write past end-of-file extends the file, and the gap reads as
  zeros. An empty write leaves the file as it is, wherever it is aimed.
- The file is passed in as contents, so opening by file name is a parameter
  rather than I/O.

Input lines are their UTF-8 bytes. Whitespace is the ASCII whitespace set,
and an id is an optional `+` followed by decimal digits below 2^32.

`db_close` over any file is described byte by byte by `ClosedFileBytes`:
- each byte of a non-zero whole page, and of the occupied rows of a non-zero
  trailing page, lands at its own offset;
- every other byte keeps the old file's value;
- the file is as long as the old file or the last byte written, whichever is
  further.

Durability holds only up to a bound. `db_open` sets `num_rows` to
`file_length / 291`. Take a table of `f` whole pages and `r` trailing rows,
with no row encoding to all zeros, closed over an empty file. `db_close` then
leaves a file of `4096·f + 291·r` bytes (`ClosedFromEmpty`). Over a longer
file, old bytes past that length survive. A skipped all-zero trailing page
leaves the file shorter. Each whole page carries 22 bytes of padding, so
reopening gives `14f + r + ⌊22f/291⌋` rows. `OpenRowCountOfPages` proves that
formula. `CloseReopenRoundTrip` proves that the reopened count is right if
and only if `f ≤ 13`. `InsertCloseReopen` assumes `f ≤ 13`.

`table_start` sets `end_of_table` to false whatever the table size
(src/cursor.rs:23-29), so a cursor on an empty table starts short of the end.
`StartView` / `Cursor.TableStart` model that, and `AdvanceFromStart` proves
that such a cursor reaches the end only after its first `advance`.

## Model

| member | source | states |
|---|---|---|
| Bytes.Zeros | src/table.rs:86 | `vec![0; n]`: a buffer of `n` bytes, each 0 |
| Bytes.AllZero | src/table.rs:82 | `iter().all(\|&x\| x == 0)`: every byte of the buffer is 0 |
| Bytes.CopyInto | src/table.rs:124-132 | `copy_from_slice` into `dst[at..at + len]`: those bytes become the data, and every other byte keeps its value |
| DiskFile.ReadAt | src/pager.rs:33-47 | a positional read of `len` bytes returns the file byte at each position inside the file and 0 past its end |
| DiskFile.WriteAt | src/pager.rs:99-115 | a non-empty positional write puts the data at the offset and extends the file to cover it. An empty write leaves the file unchanged, even past its end. Every byte outside the written range keeps its old value, and bytes in a gap are 0 |
| DiskFile.ReadOwnWrite | src/pager.rs:99-115 | reading the range just written returns the data written |
| DiskFile.ReadDisjointWrite | src/pager.rs:99-115 | a write leaves every read of a disjoint range unchanged |
| Layout.LayoutConstants | src/table.rs:36-49 | ROW_SIZE is 291; the field offsets are 0, 4 and 36; ROWS_PER_PAGE is 4096/291 = 14; TABLE_MAX_ROWS is 14·100 = 1400; each page has 22 bytes of padding |
| Layout.NewRow | src/table.rs:14-20 | `Row::new()` has id 0 and an all-zero username and email |
| Layout.RowSlot | src/table.rs:106-114 | the slot of row n is on a row boundary, lies wholly inside its page, and page·14 + offset/291 = n |
| Layout.RowCountSplit | src/table.rs:80-90 | a row count up to 1400 splits into `num_full_pages` whole pages of 14 rows plus `num_remaining_rows`; there are at most 100 whole pages, fewer when a partial page remains, and the partial rows fit in one page |
| Layout.RowsFitPage | src/table.rs:93-95 | at most 14 rows fit in one 4096-byte page |
| Layout.RowSlotsDisjoint | src/table.rs:106-114 | distinct row numbers map to different pages or to non-overlapping byte ranges of one page |
| Layout.PageBoundarySlots | src/table.rs:252-258 | rows 0..13 are on page 0 at offset i·291, and rows 14 and 15 are on page 1 at offsets 0 and 291 |
| Layout.LeValueOfBytes | src/table.rs:126 | `u32::from_le_bytes` inverts `to_le_bytes` |
| Layout.LeBytesOfValue | src/table.rs:138-142 | `to_le_bytes` inverts `u32::from_le_bytes` on every 4 bytes |
| Layout.LeBytes | src/table.rs:126 | `u32::to_le_bytes`: four bytes, least significant first. `LeValueOfBytes` proves `LeValue` inverts it |
| Layout.LeValue | src/table.rs:138-140 | `u32::from_le_bytes`: b0 + 256·b1 + 65536·b2 + 16777216·b3. `LeBytesOfValue` proves `LeBytes` inverts it |
| Layout.EncodeRow | src/table.rs:116-133 | a row's encoding is exactly ROW_SIZE bytes |
| Layout.DecodeRow | src/table.rs:135-152 | `deserialize_row` on the 291 slot bytes: the id from bytes 0..4 little-endian, the username from 4..36, the email from 36..291. `DecodeEncodeRow` and `EncodeDecodeRow` prove it inverse to `EncodeRow` |
| Layout.DecodeEncodeRow | src/table.rs:135-152 | decoding a row's encoding gives back the row in all three fields |
| Layout.EncodeDecodeRow | src/table.rs:135-152 | every 291-byte range is the encoding of the row decoded from it |
| Layout.WriteRow | src/table.rs:124-132 | the id's little-endian bytes land at [off, off+4), the username at [off+4, off+36) and the email at [off+36, off+291); every other byte of the page is unchanged |
| Layout.WriteFieldsInTurn | src/table.rs:116-133 | copying the id bytes, the username and the email into their ranges one after the other gives exactly `WriteRow` |
| Layout.ReadWrittenRow | src/table.rs:181-201 | reading a slot just written returns the row written |
| Layout.ReadRow | src/table.rs:135-152 | the row decoded from the 291 bytes at the offset. `ReadWrittenRow` and `ReadOtherRow` prove what it reads after a `WriteRow` |
| Layout.ReadOtherRow | src/table.rs:204-236 | writing a row leaves a row in a non-overlapping range readable as before |
| PageCache.PageCount | src/pager.rs:20 | `num_pages` is the least n with file_length ≤ n·4096, i.e. ⌈file_length/4096⌉ |
| PageCache.PageCountByRemainder | src/pager.rs:62-66 | the quotient-plus-remainder count in `fetch_page` equals the ceiling count in `pager_open` |
| PageCache.LoadPage | src/pager.rs:32-42 | a loaded page buffer is exactly PAGE_SIZE bytes |
| PageCache.OpenedPages | src/pager.rs:22-48 | after open there are exactly 100 buffers of 4096 bytes; page i < num_pages is the file read from i·4096, zero-padded; every later page is zeros |
| PageCache.OpenedPagesMirrorFile | src/pager.rs:31-48 | after open, byte j of page i is the file byte at i·4096+j, or 0 past the end; pages from num_pages on are all zero |
| PageCache.Fetched | src/pager.rs:53-77 | an all-zero buffer is replaced by the page read from the file at page_num·4096. A non-zero buffer is kept, every other page is unchanged, and page shape is preserved |
| PageCache.FetchIdempotent | src/pager.rs:58-77 | fetching a page twice leaves the same page array as fetching it once |
| PageCache.FlushedBytes | src/pager.rs:91-93 | the bytes `flush` writes: n·291 of them for `Some(n)`, the whole 4096-byte page for `None` |
| PageCache.Flushed | src/pager.rs:91-116 | the file after those bytes are written at page_num·4096 (`write_all_at` / `write_at`) |
| PageCache.Pager.Open | src/pager.rs:12-51 | the preload loop leaves `pages` equal to `OpenedPages(file)`, with `file_length` and `num_pages` set, and the cache valid |
| PageCache.LoadStep | src/pager.rs:31-43 | reading page k into its buffer extends the loaded prefix of the page array from pages 0..k to pages 0..k+1 |
| PageCache.LoadedAll | src/pager.rs:31-43 | once pages 0..num_pages are loaded and the rest are zero buffers, the page array is `OpenedPages(file)` |
| PageCache.Pager.FetchPage | src/pager.rs:53-79 | `page_num ≤ num_pages` is accepted. A page that is not all zero is returned and no page changes. An all-zero page alone is replaced by the file bytes from page_num·4096, zero-padded. The 100×4096 shape is kept |
| PageCache.Pager.Flush | src/pager.rs:81-119 | the first n·291 bytes (`Some(n)`) or the whole page (`None`) are written at page_num·4096. An empty `Some(0)` write leaves the file unchanged. Every other file byte is kept, or reads 0 in a gap. `pages`, `file_length` and `num_pages` are unchanged |
| Tables.OpenRowCount | src/table.rs:72-75 | `file_length / ROW_SIZE`: the largest n with n·291 ≤ file_length |
| Tables.OpenRowCountOfPages | src/table.rs:75 | the row count on reopening a file of f whole pages and r rows is 14f + r + ⌊22f/291⌋, which equals 14f + r exactly when f ≤ 13 |
| Tables.RowsOf | src/repl.rs:68-71 | the rows of a page array are the rows read from slots 0..n in order |
| Tables.InsertRow | src/repl.rs:60-61 | storing a row in its slot keeps the 100×4096 shape of the page array |
| Tables.InsertRowAppends | src/table.rs:239-268 | storing row r in slot n keeps rows 0..n readable, also across a page boundary, and makes r row n |
| Tables.FlushFullPages | src/table.rs:80-88 | the file after the whole-page loop over pages 0..i: an all-zero page is skipped, and any other is flushed in full with `None` |
| Tables.ClosedFile | src/table.rs:79-99 | the file after `db_close`: the whole-page loop, then a `Some(n mod 14)` flush of the trailing page when there are trailing rows and that page is not all zeros |
| Tables.ClosedPages | src/table.rs:79-99 | after `db_close`, every whole page and the trailing partial page is all zeros; every other page is untouched |
| Tables.ClosedPagesAfter | src/table.rs:80-98 | resetting each visited non-zero whole page and then the non-zero partial page gives `ClosedPages` |
| Tables.FlatBytes | src/table.rs:79-99 | the flat image has the requested length, and byte b is byte b mod 4096 of page b/4096 |
| Tables.FlushExtendsFlat | src/table.rs:85 | flushing page i right after the image of pages 0..i extends the image by that page, or by a prefix of it |
| Tables.FlatWriteByte | src/table.rs:85 | one byte of that write: below page i it is the old image's byte, and from there on it is the page's byte at that offset |
| Tables.WrittenExtent | src/table.rs:80-88 | the end of the last page the whole-page loop flushes: at most i·4096, and past every flushed page |
| Tables.FlushFullPagesBytes | src/table.rs:80-88 | over any file, the whole-page loop leaves `LoopImage`. Each byte of a non-zero page is at its own offset, other bytes keep the old file's value (0 in a gap), and the length is the larger of the old length and `WrittenExtent` |
| Tables.SkippedPageStep | src/table.rs:82-84 | skipping an all-zero page keeps the loop's image |
| Tables.FullPageStep | src/table.rs:85 | flushing a non-zero page in full extends the loop's image to that page |
| Tables.PageWriteStep | src/pager.rs:91-116 | writing the first len bytes of page k over the loop's image puts those bytes at their offsets, keeps every other byte, and sets the length to the larger of the old length and k·4096 + len |
| Tables.WriteByte | src/pager.rs:91-116 | the same, for one byte b of the written file |
| Tables.ClosedFileBytes | src/table.rs:79-99 | `db_close` over any file, e.g. a reopened one: each byte it writes equals the page byte at that offset, every other byte keeps the old file's value (0 in a gap), and the length is the larger of the old length and the last byte written |
| Tables.ClosedWholePageByte | src/table.rs:80-88 | over any file, byte j of a non-zero whole page i ends up at offset i·4096 + j, and the file never gets shorter |
| Tables.ClosedFileBytesTrailing | src/table.rs:89-97 | the `ClosedFileBytes` case with a non-zero trailing page |
| Tables.ClosedTrailingBytes | src/table.rs:89-97 | with a non-zero trailing page, the bytes written are the whole-page loop's plus the first (n mod 14)·291 bytes of that page, and the written extent ends there |
| Tables.ClosedFileUntrailed | src/table.rs:89-97 | with no trailing rows, or an all-zero trailing page, `db_close` writes only what the whole-page loop writes |
| Tables.RowPageNonZero | src/table.rs:82 | when no stored row encodes to all zeros, the page holding any row below the count is not all zeros, so the close loop does not skip it |
| Tables.RowsFillPages | src/table.rs:80-93 | when no stored row encodes to all zeros, every page the close loop visits is non-zero |
| Tables.FullFlushFromEmpty | src/table.rs:80-88 | from an empty file, when no page the close loop visits is all zeros (`OccupiedPagesNonZero`), the whole-page loop writes the flat image of the whole pages |
| Tables.FullPageExtendsFlat | src/table.rs:85 | flushing page k in full right after the flat image of pages 0..k extends the image by that page |
| Tables.LoopPageNonZero | src/table.rs:81-84 | when no visited page is all zeros, every whole page below n / 14 is flushed rather than skipped |
| Tables.ClosedFileWhole | src/table.rs:80-91 | with no partial page (count a multiple of 14), the closed file is the result of the whole-page loop alone |
| Tables.ClosedFileTrailing | src/table.rs:89-97 | with a non-empty, non-zero partial page, the closed file is the whole-page loop followed by a flush of that page limited to its remaining rows |
| Tables.TrailingFlush | src/table.rs:93-97 | flushing `rest` rows of page `full` after the image of the whole pages extends the image by rest·291 bytes of that page |
| Tables.ClosedFromEmpty | src/table.rs:79-99 | from an empty file, when no page the close loop visits is all zeros (`OccupiedPagesNonZero`), `db_close` writes the whole pages followed by the (n mod 14)·291 bytes of the trailing page |
| Tables.ClosedFromEmptyWhole | src/table.rs:80-91 | from an empty file with a count that is a multiple of 14, when no page the close loop visits is all zeros (`OccupiedPagesNonZero`), `db_close` writes the flat image of the whole pages |
| Tables.ClosedFromEmptyTrailing | src/table.rs:80-97 | from an empty file with a partial page, when no page the close loop visits is all zeros (`OccupiedPagesNonZero`), `db_close` writes the whole pages followed by the partial page's (n mod 14)·291 bytes |
| Tables.ReopenFlat | src/pager.rs:31-48 | reopening the flat image of n rows loads pages holding the same n rows |
| Tables.ReloadedByte | src/pager.rs:31-48 | every byte of a flat image that lies inside the file is loaded back into the same page and position |
| Tables.ReopenedRow | src/pager.rs:31-48 | reopening the image of n rows reads back each row k < n from its slot unchanged |
| Tables.RowInsideImage | src/table.rs:106-114 | the slot of every row below n lies inside the flat image of n rows |
| Tables.ReloadedSlot | src/pager.rs:31-48 | the 291 bytes of a slot inside the flat image are loaded back unchanged |
| Tables.CloseReopenRoundTrip | src/table.rs:70-99 | close then reopen from an empty file: the file is 4096·f + 291·r bytes long and fits the page array; the reopened pages hold the same rows; the reopened count is right exactly when f ≤ 13 |
| Tables.Table.Open | src/table.rs:70-77 | `db_open` opens the pager and sets num_rows to file_length / 291 |
| Tables.Table.SerializeRow | src/table.rs:116-133 | the three `copy_from_slice` calls together write `WriteRow` into the destination page, and no other page changes |
| Tables.Table.DeserializeRow | src/table.rs:135-152 | the row read is the one whose encoding is the 291 bytes at the slot |
| Tables.Table.Close | src/table.rs:79-99 | the flush loop leaves the file equal to `ClosedFile`: each non-zero whole page in full, then the non-zero trailing page's (n mod 14)·291 bytes. The pages equal `ClosedPages`, and the row count and pager state are unchanged |
| Tables.Table.FlushWholePages | src/table.rs:80-88 | the whole-page loop: the file becomes `FlushFullPages` of the old file and pages, each visited non-zero page is reset to zeros, and every other page is untouched |
| Tables.Table.FlushTrailingPage | src/table.rs:90-98 | the trailing-page step: an all-zero page leaves the file as it is; otherwise its first n·291 bytes are flushed and the page is reset. Every other page is untouched |
| Cursors.CursorLocationEq | src/cursor.rs:13-19 | `eq` holds only for (Start, Start); End == End is false; it implies `==` and is symmetric |
| Cursors.StartView | src/cursor.rs:23-29 | `table_start(n)` is at row 0, not at the end even for n = 0, with table size n |
| Cursors.EndView | src/cursor.rs:31-37 | `table_end(k, n)` is at row k, at the end, with table size n |
| Cursors.CursorLocation.Eq | src/cursor.rs:13-19 | the hand-written `eq`: true only for (Start, Start). `CursorLocationEq` proves it symmetric but not reflexive |
| Cursors.Advanced | src/cursor.rs:39-44 | one `advance` as a function on the three fields. `AdvanceStep` proves row +1, same size, and the flag set at the size or kept |
| Cursors.AdvancedBy | src/cursor.rs:39-44 | k calls of `advance`. `AdvancedByFields` proves its closed form |
| Cursors.AdvanceStep | src/cursor.rs:39-44 | `advance` adds exactly 1 to the row number and keeps the size; the flag is set when the row number reaches the size and otherwise keeps its old value |
| Cursors.AdvancedByFields | src/cursor.rs:39-44 | after k advances the row number has grown by k and the size is unchanged; the flag is set iff it was set before or k ≥ 1 and the row number reached the size |
| Cursors.EndIsSticky | src/cursor.rs:41-43 | once at the end, a cursor stays at the end through any number of advances |
| Cursors.AdvanceFromStart | src/cursor.rs:23-44 | from `table_start(n)`, k advances give row k with the flag set iff k ≥ 1 and k ≥ n; for n ≥ 1 the flag is false after k < n advances and true after n |
| Cursors.Cursor.TableStart | src/cursor.rs:23-29 | the constructor builds `StartView(n)` |
| Cursors.Cursor.TableEnd | src/cursor.rs:31-37 | the constructor builds `EndView(k, n)` |
| Cursors.Cursor.Advance | src/cursor.rs:39-44 | the new fields are `Advanced` of the old ones: row number + 1, same size, flag set once row ≥ size |
| Lexing.WordLength | src/repl.rs:88 | a token runs from a non-whitespace byte to the first whitespace byte or the end |
| Lexing.IsSpace | src/repl.rs:88 | the ASCII bytes `split_whitespace` splits on: tab, line feed, vertical tab, form feed, carriage return, space |
| Lexing.Tokens | src/repl.rs:88 | every piece `split_whitespace` yields is non-empty and contains no whitespace |
| Lexing.TokensAroundSpace | src/repl.rs:88 | a whitespace byte separates the tokens on its two sides |
| Lexing.TokensUnwords | src/repl.rs:88 | splitting tokens joined with single spaces gives the tokens back |
| Lexing.ParseU32 | src/repl.rs:95 | a parsed id is the value of the token's digits, with or without a leading `+` |
| Lexing.ParseRejectsNonDigit | src/repl.rs:95-98 | a token with a byte that is neither a digit nor a leading `+` does not parse |
| Lexing.ParseRejectsOverflow | src/repl.rs:95-98 | digits whose value is 2^32 or more do not parse |
| Lexing.ParseAccepts | src/repl.rs:95-96 | non-empty digits below 2^32, with or without a leading `+`, parse to their value |
| Lexing.DecimalDigits | src/repl.rs:95 | the decimal spelling of n is all digits and has value n |
| Lexing.ParseDecimal | src/repl.rs:95-96 | every u32 written in decimal is a token and parses back to itself |
| Lexing.PadTo | src/repl.rs:104-105 | a zeroed array with the token copied in front: the token, then zeros up to the width |
| Lexing.StartsWith | src/repl.rs:85 | `str::starts_with` on bytes: the prefix fits and equals the input's first bytes |
| Repl.ExecuteMetaCommand | src/repl.rs:76-82 | ".exit" ends the process with status 0; every other command returns `UnrecognizedCommand` |
| Repl.MetaCommandNeverSucceeds | src/repl.rs:274-276 | no command returns `Success`; ".unknown" is unrecognized |
| Repl.NewStatement | src/repl.rs:28-36 | `Statement::new()` is an insert with empty text and the all-zero row |
| Repl.Prepare | src/repl.rs:84-122 | `prepare_statement` on values. The checks run in source order, and fields are written as each check passes. `PrepareUnrecognized`, `PrepareSelect`, `PrepareInsertChecks`, `PrepareSucceeds` and `PrepareInsertLine` state what it does |
| Repl.PrepareUnrecognized | src/repl.rs:119-121 | input that neither starts with "insert" nor is exactly "select" is unrecognized, and the statement is untouched |
| Repl.PrepareSelect | src/repl.rs:115-118 | exactly "select" succeeds with type Select and the input as text |
| Repl.PrepareInsertChecks | src/repl.rs:85-112 | for "insert…" lines the checks are made in order: count, id, username, email. The first failing check decides `InvalidNumberOfArguments`, `InvalidId`, `InvalidUsername` or `InvalidEmail`, and type and text are written whatever the outcome |
| Repl.PrepareSucceeds | src/repl.rs:84-122 | success iff the input is exactly "select" or is an "insert…" line with 4 tokens, a parsable id, a username ≤ 32 bytes and an email ≤ 255 bytes. On insert success the row holds the parsed id and each token followed by zeros |
| Repl.PrepareInsertLine | src/repl.rs:84-114 | the line `kw id username email` prepares exactly the row (id, padded username, padded email), for every u32 id and every fitting token; any first token starting with "insert" is accepted |
| Repl.PrepareInsertExample | src/repl.rs:209-225 | "insert 1 user1 user1@example.com" succeeds as an insert with id 1 and those strings at the front of the fields |
| Repl.PrepareTooFewArgumentsExample | src/repl.rs:231-233 | "insert 1 user1" gives `InvalidNumberOfArguments` |
| Repl.PrepareInvalidIdExample | src/repl.rs:235-237 | "insert abc user1 email@test.com" gives `InvalidId` |
| Repl.PrepareLongUsernameExample | src/repl.rs:239-245 | an insert line with a 33-byte username gives `InvalidUsername` |
| Repl.PrepareLongEmailExample | src/repl.rs:247-253 | an insert line with a 256-byte email gives `InvalidEmail` |
| Repl.PrepareUnrecognizedExample | src/repl.rs:266-271 | "invalid statement" is unrecognized |
| Repl.Statement.constructor | src/repl.rs:28-36 | a new statement is `NewStatement()` |
| Repl.PrepareStatement | src/repl.rs:84-122 | the in-place field writes leave the statement and result that `Prepare` gives for the old statement |
| Repl.ExecuteInsert | src/repl.rs:55-64 | at num_rows ≥ 1400 it returns `TableFull` and changes nothing. Otherwise the row goes into slot `row_slot(num_rows)`, num_rows grows by 1, and the table's rows are the old rows followed by the new one. The file is untouched |
| Repl.ExecuteSelect | src/repl.rs:66-74 | returns `Success` and the rows 0..num_rows in ascending order |
| Repl.ExecuteStatement | src/repl.rs:48-64 | dispatches on the type, and never touches the file. A select returns the table's rows and changes nothing. An insert into a full table returns `TableFull` and leaves the row count and pages unchanged. Otherwise the row goes into slot `row_slot(num_rows)`, num_rows grows by 1, and the rows are the old rows followed by the new one |
| Repl.InsertAllAppends | src/table.rs:239-268 | inserting rows in turn keeps the earlier rows and yields the new ones in insertion order |
| Repl.InsertAll | src/table.rs:239-268 | repeated `execute_insert` calls leave a well-formed page array |
| Repl.InsertCloseReopen | src/table.rs:70-99 | insert rs into an empty database, close and reopen: with at most 13 whole pages and no all-zero row, the reopened count is \|rs\| and a select returns rs |

## Left out

- I/O failures: `unwrap` and `panic!` on open, metadata and read errors, and the `Err` results of `flush`. The abstract file never fails, so `Pager.Flush` returns nothing. The `.unwrap()` calls in `db_close` therefore never fire.
- Partial writes and short reads. `write_at` is taken to write everything. A short `read_exact_at` or `read_at` is taken to fill the rest of the buffer with zeros (Rust leaves it unspecified after `UnexpectedEof`).
- `sync_data` and its error log in `db_close`, and every `info!` / `error!` log line.
- `println!` output: the `parts` debug line in `prepare_statement` and the row printing in `execute_select`. `execute_select` returns its rows instead of printing them.
- `Display for Row` (`from_utf8_lossy`) and the `Default` impls that open hard-coded files.
- `run`, `InputBuffer::read_input`, `print_prompt` and `main`: the terminal loop. The trimming of input lines in `run` is part of that loop.
- Repl.ExecuteMetaCommand: `std::process::exit(0)` is a returned `ExitProcess(0)` value, not the end of the process.
- Lexing.Tokens: whitespace is the six ASCII whitespace bytes only. Unicode whitespace such as U+0085 or U+00A0, which `split_whitespace` also splits on, is not modelled.
- Lexing.ParseU32: covers ASCII text only. `str::parse::<u32>` error kinds are collapsed into one failure.
- Machine integer widths (`usize`, `u64`): `row_num += 1` in `advance` and `num_rows += 1` cannot overflow in this model.
- PageCache.Pager.Open: requires the file to need at most 100 pages. A longer file indexes past the page array and panics.
- PageCache.Pager.FetchPage: requires page_num < 100, as well as ≤ num_pages. `fetch_page` has no callers in the core.
- PageCache.Pager.Flush: requires the row count of `Some(n)` to fit the page. A larger count panics on the slice.
- Tables.Table.Close: requires num_rows ≤ 1400. A reopened file of 100 whole pages counts up to 1407 rows, and for those `db_close` indexes past the page array.
- Repl.ExecuteSelect: requires num_rows ≤ 1400 for the same reason.
- Tables.FullFlushFromEmpty: assumes no page the whole-page loop visits is all zeros. Such a page is skipped (src/table.rs:82-84), so the file is then not the flat image; `FlushFullPagesBytes` states the loop's result without that assumption.
- Tables.ClosedFromEmpty: assumes no page `db_close` visits is all zeros, for the same reason; `ClosedFileBytes` states the closed file without it.
- Tables.ClosedFromEmptyWhole: the same assumption as `ClosedFromEmpty`, for a count that is a multiple of 14.
- Tables.ClosedFromEmptyTrailing: the same assumption as `ClosedFromEmpty`, for a count with a partial page.
- Tables.CloseReopenRoundTrip: states the reopen round trip only from an empty file. Over a non-empty file, `ClosedFileBytes` gives every byte `db_close` leaves, but old bytes past what it writes survive, and a reopen counts them as rows. It assumes no row encodes to all zeros, because `db_close` skips an all-zero page and an all-zero row reads back only as padding zeros.
- Repl.InsertCloseReopen: makes the same assumption. An all-zero row is `Row::new()`, or the row prepared from `insert 0` followed by two tokens of NUL bytes.
