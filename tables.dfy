/** The table: one pager plus the row count. `db_open` derives the row count
    from the file length, `serialize_row` / `deserialize_row` move a row in and
    out of its slot, and `db_close` flushes the resident pages back to the file.
    The functions before the class describe the page array and the file as values,
    so that the lemmas about inserting, closing and reopening can relate them. */
module Tables {
  import opened Bytes
  import opened Wrappers
  import opened DiskFile
  import opened Layout
  import opened PageCache

  /** `num_rows` as `db_open` derives it: the whole rows the file length holds. */
  function OpenRowCount(fileLength: nat): (n: nat)
    ensures n * ROW_SIZE <= fileLength < n * ROW_SIZE + ROW_SIZE
  {
    fileLength / ROW_SIZE
  }

  /** A file of `full` whole pages and `rest` trailing rows reopens with
      `14 * full + rest + (22 * full) / 291` rows, because the 22 padding bytes of
      each whole page count towards the quotient. The count is the true one exactly
      while there are at most 13 whole pages. */
  lemma OpenRowCountOfPages(full: nat, rest: nat)
    requires rest < ROWS_PER_PAGE
    ensures OpenRowCount(full * PAGE_SIZE + rest * ROW_SIZE)
            == full * ROWS_PER_PAGE + rest + (22 * full) / ROW_SIZE
    ensures OpenRowCount(full * PAGE_SIZE + rest * ROW_SIZE) == full * ROWS_PER_PAGE + rest
            <==> full <= 13
  {
    var q, m := (22 * full) / ROW_SIZE, (22 * full) % ROW_SIZE;
    assert 22 * full == q * ROW_SIZE + m;
    assert full * PAGE_SIZE + rest * ROW_SIZE == (full * ROWS_PER_PAGE + rest + q) * ROW_SIZE + m;
    assert q == 0 <==> full <= 13;
  }

  /** The row stored in slot `RowSlot(k)` of a page array. */
  function RowAt(pages: seq<Page>, k: nat): Row
    requires WellShaped(pages) && k < TABLE_MAX_ROWS
  {
    var s := RowSlot(k);
    ReadRow(pages[s.page], s.offset)
  }

  /** Rows `0 .. n` of a page array, in row order. */
  function RowsOf(pages: seq<Page>, n: nat): (rows: seq<Row>)
    requires WellShaped(pages) && n <= TABLE_MAX_ROWS
    ensures |rows| == n
    ensures forall k :: 0 <= k < n ==> rows[k] == RowAt(pages, k)
  {
    seq(n, k requires 0 <= k < n => RowAt(pages, k))
  }

  /** The page array after row `r` is serialized into slot `RowSlot(n)`. */
  function InsertRow(pages: seq<Page>, n: nat, r: Row): (p: seq<Page>)
    requires WellShaped(pages) && n < TABLE_MAX_ROWS
    ensures WellShaped(p)
  {
    var s := RowSlot(n);
    pages[s.page := WriteRow(pages[s.page], s.offset, r)]
  }

  /** Appending a row keeps every earlier row readable with its contents, across
      page boundaries, and makes the new row the last one. */
  lemma InsertRowAppends(pages: seq<Page>, n: nat, r: Row)
    requires WellShaped(pages) && n < TABLE_MAX_ROWS
    ensures RowsOf(InsertRow(pages, n, r), n + 1) == RowsOf(pages, n) + [r]
  {
    var p := InsertRow(pages, n, r);
    var s := RowSlot(n);
    forall k | 0 <= k < n
      ensures RowAt(p, k) == RowAt(pages, k)
    {
      var t := RowSlot(k);
      RowSlotsDisjoint(k, n);
      if t.page == s.page {
        ReadOtherRow(pages[s.page], s.offset, r, t.offset);
      }
    }
    ReadWrittenRow(pages[s.page], s.offset, r);
  }

  /** Whether `db_close` flushes page `i` of a table of `numRows` rows: every whole
      page, and the trailing partial page if there is one. */
  predicate ClosesPage(i: nat, numRows: nat)
  {
    i < numRows / ROWS_PER_PAGE || (i == numRows / ROWS_PER_PAGE && numRows % ROWS_PER_PAGE > 0)
  }

  /** The file after the whole-page loop of `db_close` has handled pages `0 .. i`:
      an all-zero page is skipped, any other one is flushed in full. */
  function FlushFullPages(file: seq<byte>, pages: seq<Page>, i: nat): seq<byte>
    requires WellShaped(pages) && i <= |pages|
    decreases i
  {
    if i == 0 then file
    else
      var before := FlushFullPages(file, pages, i - 1);
      if AllZero(pages[i - 1]) then before else Flushed(before, i - 1, pages[i - 1], None)
  }

  /** The file after `db_close`: the whole pages, then the occupied rows of the
      trailing partial page unless that page is all zeros. */
  function ClosedFile(file: seq<byte>, pages: seq<Page>, numRows: nat): seq<byte>
    requires WellShaped(pages) && numRows <= TABLE_MAX_ROWS
  {
    RowCountSplit(numRows);
    var numFullPages := numRows / ROWS_PER_PAGE;
    var numRemainingRows := numRows % ROWS_PER_PAGE;
    var flushed := FlushFullPages(file, pages, numFullPages);
    if numRemainingRows > 0 && !AllZero(pages[numFullPages]) then
      Flushed(flushed, numFullPages, pages[numFullPages], Some(numRemainingRows))
    else flushed
  }

  /** The pages after the whole-page loop reset pages `0 .. numRows / ROWS_PER_PAGE`,
      and after the trailing step reset the partial page (if there are trailing
      rows), are `ClosedPages`. */
  lemma ClosedPagesAfter(pages: seq<Page>, afterLoop: seq<Page>, after: seq<Page>, numRows: nat)
    requires WellShaped(pages) && |afterLoop| == |pages| && |after| == |pages|
    requires forall j :: 0 <= j < |pages| ==>
               afterLoop[j] == if j < numRows / ROWS_PER_PAGE && !AllZero(pages[j]) then Zeros(PAGE_SIZE) else pages[j]
    requires forall j :: 0 <= j < |pages| ==>
               after[j] == if numRows % ROWS_PER_PAGE > 0 && j == numRows / ROWS_PER_PAGE && !AllZero(afterLoop[j])
                           then Zeros(PAGE_SIZE) else afterLoop[j]
    ensures after == ClosedPages(pages, numRows)
  {
    var r := ClosedPages(pages, numRows);
    forall j | 0 <= j < |pages|
      ensures after[j] == r[j]
    {
      if ClosesPage(j, numRows) && AllZero(pages[j]) {
        AllZeroIsZeros(pages[j]);
      }
    }
  }

  /** The page array after `db_close`: each flushed page is reset to zeros, i.e.
      marked "not loaded". Every page `db_close` looks at ends up all zeros (a
      skipped page already was); the others are untouched. */
  function ClosedPages(pages: seq<Page>, numRows: nat): (r: seq<Page>)
    requires WellShaped(pages)
    ensures WellShaped(r)
    ensures forall i :: 0 <= i < |pages| ==> r[i] == if ClosesPage(i, numRows) then Zeros(PAGE_SIZE) else pages[i]
  {
    var r := seq(|pages|, i requires 0 <= i < |pages| =>
      if ClosesPage(i, numRows) && !AllZero(pages[i]) then Zeros(PAGE_SIZE) else pages[i]);
    forall i | 0 <= i < |pages| && ClosesPage(i, numRows) && AllZero(pages[i])
      ensures pages[i] == Zeros(PAGE_SIZE)
    {
      AllZeroIsZeros(pages[i]);
    }
    r
  }

  /** The first `len` bytes of the page array laid out page after page: the file
      image of a table whose pages were all written in order. */
  function FlatBytes(pages: seq<Page>, len: nat): (f: seq<byte>)
    requires WellShaped(pages) && len <= TABLE_MAX_PAGES * PAGE_SIZE
    ensures |f| == len
    ensures forall b :: 0 <= b < len ==> f[b] == pages[b / PAGE_SIZE][b % PAGE_SIZE]
  {
    seq(len, b requires 0 <= b < len => pages[b / PAGE_SIZE][b % PAGE_SIZE])
  }

  /** The length of the file `db_close` writes for `numRows` rows from an empty file. */
  function ClosedFileLength(numRows: nat): nat
  {
    (numRows / ROWS_PER_PAGE) * PAGE_SIZE + (numRows % ROWS_PER_PAGE) * ROW_SIZE
  }

  lemma PagePosition(i: nat, j: nat)
    requires j < PAGE_SIZE
    ensures (i * PAGE_SIZE + j) / PAGE_SIZE == i && (i * PAGE_SIZE + j) % PAGE_SIZE == j
  {
  }

  /** Writing page `i` (or its first `len` bytes) right after the flat image of
      pages `0 .. i` extends the image. */
  lemma FlushExtendsFlat(pages: seq<Page>, i: nat, len: nat)
    requires WellShaped(pages) && i < TABLE_MAX_PAGES && len <= PAGE_SIZE
    ensures WriteAt(FlatBytes(pages, i * PAGE_SIZE), i * PAGE_SIZE, pages[i][..len])
            == FlatBytes(pages, i * PAGE_SIZE + len)
  {
    var w := WriteAt(FlatBytes(pages, i * PAGE_SIZE), i * PAGE_SIZE, pages[i][..len]);
    var f := FlatBytes(pages, i * PAGE_SIZE + len);
    assert |w| == |f|;
    forall b | 0 <= b < |w|
      ensures w[b] == f[b]
    {
      FlatWriteByte(pages, i, len, b);
    }
  }

  /** One byte of `FlushExtendsFlat`: below `i * PAGE_SIZE` it is the old image's,
      from there on it is the page's. */
  lemma FlatWriteByte(pages: seq<Page>, i: nat, len: nat, b: nat)
    requires WellShaped(pages) && i < TABLE_MAX_PAGES && len <= PAGE_SIZE && b < i * PAGE_SIZE + len
    ensures WriteAt(FlatBytes(pages, i * PAGE_SIZE), i * PAGE_SIZE, pages[i][..len])[b]
            == pages[b / PAGE_SIZE][b % PAGE_SIZE]
  {
    var w := WriteAt(FlatBytes(pages, i * PAGE_SIZE), i * PAGE_SIZE, pages[i][..len]);
    if b >= i * PAGE_SIZE {
      PagePosition(i, b - i * PAGE_SIZE);
      assert w[i * PAGE_SIZE + (b - i * PAGE_SIZE)] == pages[i][..len][b - i * PAGE_SIZE];
    }
  }

  /** The page of file byte `b` is below `i` exactly when `b` is below `i * PAGE_SIZE`. */
  lemma PageOfByte(b: nat, i: nat)
    ensures b < i * PAGE_SIZE <==> b / PAGE_SIZE < i
    ensures b / PAGE_SIZE == i <==> i * PAGE_SIZE <= b < i * PAGE_SIZE + PAGE_SIZE
  {
  }

  /** The end of the last page among `0 .. i` that the whole-page loop of
      `db_close` flushes, or 0 if it flushes none. */
  function WrittenExtent(pages: seq<Page>, i: nat): (e: nat)
    requires WellShaped(pages) && i <= |pages|
    ensures e <= i * PAGE_SIZE
    ensures forall j :: 0 <= j < i && !AllZero(pages[j]) ==> j * PAGE_SIZE + PAGE_SIZE <= e
    decreases i
  {
    if i == 0 then 0
    else if AllZero(pages[i - 1]) then WrittenExtent(pages, i - 1)
    else i * PAGE_SIZE
  }

  /** Whether the whole-page loop over pages `0 .. i` writes file byte `b`. */
  predicate FlushedByte(pages: seq<Page>, i: nat, b: nat)
    requires WellShaped(pages) && i <= |pages|
  {
    b / PAGE_SIZE < i && !AllZero(pages[b / PAGE_SIZE])
  }

  /** Byte `b` of the old file, or 0 past its end. */
  function OldByte(file: seq<byte>, b: nat): byte
  {
    if b < |file| then file[b] else 0
  }

  /** `f` is the file the whole-page loop over pages `0 .. i` leaves from `file`:
      every byte of a non-zero page at its own position, every other byte the old
      file's value (0 in a gap past the old end), and long enough to cover the
      last page flushed, never shorter than `file`. */
  ghost predicate LoopImage(f: seq<byte>, file: seq<byte>, pages: seq<Page>, i: nat)
    requires WellShaped(pages) && i <= |pages|
  {
    && |f| == Max(|file|, WrittenExtent(pages, i))
    && forall b :: 0 <= b < |f| ==>
         f[b] == if FlushedByte(pages, i, b) then pages[b / PAGE_SIZE][b % PAGE_SIZE] else OldByte(file, b)
  }

  /** The whole-page loop over pages `0 .. i` on any file leaves its `LoopImage`. */
  lemma {:induction false} FlushFullPagesBytes(file: seq<byte>, pages: seq<Page>, i: nat)
    requires WellShaped(pages) && i <= |pages|
    ensures LoopImage(FlushFullPages(file, pages, i), file, pages, i)
    decreases i
  {
    if i == 0 {
      assert WrittenExtent(pages, 0) == 0;
    } else {
      var before := FlushFullPages(file, pages, i - 1);
      FlushFullPagesBytes(file, pages, i - 1);
      if AllZero(pages[i - 1]) {
        assert FlushFullPages(file, pages, i) == before;
        SkippedPageStep(file, pages, i - 1, before);
      } else {
        assert FlushFullPages(file, pages, i) == Flushed(before, i - 1, pages[i - 1], None);
        FullPageStep(file, pages, i - 1, before);
      }
    }
  }

  /** One step of `FlushFullPagesBytes` over an all-zero page: nothing is written. */
  lemma SkippedPageStep(file: seq<byte>, pages: seq<Page>, k: nat, before: seq<byte>)
    requires WellShaped(pages) && k < |pages| && AllZero(pages[k])
    requires LoopImage(before, file, pages, k)
    ensures LoopImage(before, file, pages, k + 1)
  {
    forall b: nat ensures FlushedByte(pages, k + 1, b) == FlushedByte(pages, k, b) {
      PageOfByte(b, k);
    }
  }

  /** One step of `FlushFullPagesBytes` over a non-zero page `k`, flushed in full
      over the file `before` the loop has written for pages `0 .. k`. */
  lemma FullPageStep(file: seq<byte>, pages: seq<Page>, k: nat, before: seq<byte>)
    requires WellShaped(pages) && k < |pages| && !AllZero(pages[k])
    requires LoopImage(before, file, pages, k)
    ensures LoopImage(Flushed(before, k, pages[k], None), file, pages, k + 1)
  {
    assert pages[k][..PAGE_SIZE] == pages[k];
    PageWriteStep(file, pages, k, PAGE_SIZE, before);
    forall b: nat ensures FlushedByte(pages, k + 1, b) == (FlushedByte(pages, k, b) || b / PAGE_SIZE == k) {
      PageOfByte(b, k);
    }
  }

  /** Writing the first `len` bytes of page `k` over the file `before` the
      whole-page loop has written for pages `0 .. k`. */
  lemma PageWriteStep(file: seq<byte>, pages: seq<Page>, k: nat, len: nat, before: seq<byte>)
    requires WellShaped(pages) && k < |pages| && 0 < len <= PAGE_SIZE
    requires LoopImage(before, file, pages, k)
    ensures var f := WriteAt(before, k * PAGE_SIZE, pages[k][..len]);
            && |f| == Max(|file|, k * PAGE_SIZE + len)
            && forall b :: 0 <= b < |f| ==>
                 f[b] == if FlushedByte(pages, k, b) || (b / PAGE_SIZE == k && b % PAGE_SIZE < len)
                         then pages[b / PAGE_SIZE][b % PAGE_SIZE] else OldByte(file, b)
  {
    var f := WriteAt(before, k * PAGE_SIZE, pages[k][..len]);
    forall b | 0 <= b < |f|
      ensures f[b] == if FlushedByte(pages, k, b) || (b / PAGE_SIZE == k && b % PAGE_SIZE < len)
                      then pages[b / PAGE_SIZE][b % PAGE_SIZE] else OldByte(file, b)
    {
      WriteByte(file, pages, k, len, before, b);
    }
  }

  /** Byte `b` of the file after the write of `PageWriteStep`. */
  lemma WriteByte(file: seq<byte>, pages: seq<Page>, k: nat, len: nat, before: seq<byte>, b: nat)
    requires WellShaped(pages) && k < |pages| && 0 < len <= PAGE_SIZE
    requires |before| == Max(|file|, WrittenExtent(pages, k))
    requires b < |before| ==>
               before[b] == if FlushedByte(pages, k, b) then pages[b / PAGE_SIZE][b % PAGE_SIZE] else OldByte(file, b)
    requires b < Max(|before|, k * PAGE_SIZE + len)
    ensures b < |WriteAt(before, k * PAGE_SIZE, pages[k][..len])|
    ensures WriteAt(before, k * PAGE_SIZE, pages[k][..len])[b]
            == if FlushedByte(pages, k, b) || (b / PAGE_SIZE == k && b % PAGE_SIZE < len)
               then pages[b / PAGE_SIZE][b % PAGE_SIZE] else OldByte(file, b)
  {
    if k * PAGE_SIZE <= b < k * PAGE_SIZE + len {
      WriteByteInside(pages, k, len, before, b);
    } else {
      WriteByteOutside(file, pages, k, len, before, b);
    }
  }

  /** A byte inside the written range is the page's byte at that position. */
  lemma WriteByteInside(pages: seq<Page>, k: nat, len: nat, before: seq<byte>, b: nat)
    requires WellShaped(pages) && k < |pages| && 0 < len <= PAGE_SIZE
    requires k * PAGE_SIZE <= b < k * PAGE_SIZE + len
    ensures b < |WriteAt(before, k * PAGE_SIZE, pages[k][..len])|
    ensures b / PAGE_SIZE == k && b % PAGE_SIZE < len
    ensures WriteAt(before, k * PAGE_SIZE, pages[k][..len])[b] == pages[k][b % PAGE_SIZE]
  {
    var f := WriteAt(before, k * PAGE_SIZE, pages[k][..len]);
    var r := b - k * PAGE_SIZE;
    PagePosition(k, r);
    assert f[k * PAGE_SIZE + r] == pages[k][..len][r];
  }

  /** A byte outside the written range keeps its value in `before`; a byte past
      the end of `before` belongs to no flushed page and to no old byte. */
  lemma WriteByteOutside(file: seq<byte>, pages: seq<Page>, k: nat, len: nat, before: seq<byte>, b: nat)
    requires WellShaped(pages) && k < |pages| && 0 < len <= PAGE_SIZE
    requires |before| == Max(|file|, WrittenExtent(pages, k))
    requires b < |before| ==>
               before[b] == if FlushedByte(pages, k, b) then pages[b / PAGE_SIZE][b % PAGE_SIZE] else OldByte(file, b)
    requires b < Max(|before|, k * PAGE_SIZE + len) && !(k * PAGE_SIZE <= b < k * PAGE_SIZE + len)
    ensures b < |WriteAt(before, k * PAGE_SIZE, pages[k][..len])|
    ensures WriteAt(before, k * PAGE_SIZE, pages[k][..len])[b]
            == if FlushedByte(pages, k, b) || (b / PAGE_SIZE == k && b % PAGE_SIZE < len)
               then pages[b / PAGE_SIZE][b % PAGE_SIZE] else OldByte(file, b)
  {
    var q := b / PAGE_SIZE;
    PageOfByte(b, q);
    PageOfByte(b, k);
    if FlushedByte(pages, k, b) {
      assert q * PAGE_SIZE + PAGE_SIZE <= WrittenExtent(pages, k);
    }
  }

  /** Whether `db_close` for `numRows` rows writes file byte `b`: a byte of a
      non-zero whole page, or one of the occupied rows' bytes of a non-zero
      trailing page. */
  predicate ClosedByte(pages: seq<Page>, numRows: nat, b: nat)
    requires WellShaped(pages) && numRows <= TABLE_MAX_ROWS
  {
    RowCountSplit(numRows);
    var full, rest := numRows / ROWS_PER_PAGE, numRows % ROWS_PER_PAGE;
    FlushedByte(pages, full, b)
    || (rest > 0 && b / PAGE_SIZE == full && !AllZero(pages[full]) && b % PAGE_SIZE < rest * ROW_SIZE)
  }

  /** The end of the last byte `db_close` writes for `numRows` rows, or 0. */
  function ClosedExtent(pages: seq<Page>, numRows: nat): nat
    requires WellShaped(pages) && numRows <= TABLE_MAX_ROWS
  {
    RowCountSplit(numRows);
    var full, rest := numRows / ROWS_PER_PAGE, numRows % ROWS_PER_PAGE;
    if rest > 0 && !AllZero(pages[full]) then full * PAGE_SIZE + rest * ROW_SIZE
    else WrittenExtent(pages, full)
  }

  /** `db_close` over any file, e.g. one reopened with its pages preloaded: each
      byte it writes is the page byte for that position, every other byte keeps
      the old file's value (0 in a gap), and the file is as long as the old file
      or the last byte written, whichever is further. */
  lemma ClosedFileBytes(file: seq<byte>, pages: seq<Page>, numRows: nat)
    requires WellShaped(pages) && numRows <= TABLE_MAX_ROWS
    ensures var c := ClosedFile(file, pages, numRows);
            && |c| == Max(|file|, ClosedExtent(pages, numRows))
            && forall b :: 0 <= b < |c| ==>
                 c[b] == if ClosedByte(pages, numRows, b) then pages[b / PAGE_SIZE][b % PAGE_SIZE] else OldByte(file, b)
  {
    RowCountSplit(numRows);
    var full, rest := numRows / ROWS_PER_PAGE, numRows % ROWS_PER_PAGE;
    if rest > 0 && !AllZero(pages[full]) {
      ClosedFileBytesTrailing(file, pages, numRows, full, rest);
    } else {
      ClosedFileUntrailed(file, pages, numRows, full);
      FlushFullPagesBytes(file, pages, full);
    }
  }

  /** After `db_close` over any file, byte `j` of a non-zero whole page `i` is
      at file offset `i * PAGE_SIZE + j`, and the file never gets shorter. */
  lemma ClosedWholePageByte(file: seq<byte>, pages: seq<Page>, numRows: nat, i: nat, j: nat)
    requires WellShaped(pages) && numRows <= TABLE_MAX_ROWS
    requires i < numRows / ROWS_PER_PAGE && !AllZero(pages[i]) && j < PAGE_SIZE
    ensures var c := ClosedFile(file, pages, numRows);
            |file| <= |c| && i * PAGE_SIZE + j < |c| && c[i * PAGE_SIZE + j] == pages[i][j]
  {
    RowCountSplit(numRows);
    ClosedFileBytes(file, pages, numRows);
    PagePosition(i, j);
    assert i * PAGE_SIZE + PAGE_SIZE <= WrittenExtent(pages, numRows / ROWS_PER_PAGE);
    assert WrittenExtent(pages, numRows / ROWS_PER_PAGE) <= ClosedExtent(pages, numRows);
  }

  /** The case of `ClosedFileBytes` with a non-zero trailing page. */
  lemma ClosedFileBytesTrailing(file: seq<byte>, pages: seq<Page>, numRows: nat, full: nat, rest: nat)
    requires WellShaped(pages) && numRows <= TABLE_MAX_ROWS
    requires full == numRows / ROWS_PER_PAGE && rest == numRows % ROWS_PER_PAGE
    requires 0 < rest && full < TABLE_MAX_PAGES && !AllZero(pages[full])
    ensures var c := ClosedFile(file, pages, numRows);
            && |c| == Max(|file|, ClosedExtent(pages, numRows))
            && forall b :: 0 <= b < |c| ==>
                 c[b] == if ClosedByte(pages, numRows, b) then pages[b / PAGE_SIZE][b % PAGE_SIZE] else OldByte(file, b)
  {
    var before := FlushFullPages(file, pages, full);
    RowsFitPage(rest);
    var c := WriteAt(before, full * PAGE_SIZE, pages[full][..rest * ROW_SIZE]);
    assert ClosedFile(file, pages, numRows) == c by {
      ClosedFileTrailing(file, pages, numRows, full, rest);
    }
    FlushFullPagesBytes(file, pages, full);
    PageWriteStep(file, pages, full, rest * ROW_SIZE, before);
    ClosedTrailingBytes(pages, numRows, full, rest);
  }

  /** With a non-zero trailing page, `db_close` writes the bytes of the whole-page
      loop and the occupied rows of page `full`, and nothing past them. */
  lemma ClosedTrailingBytes(pages: seq<Page>, numRows: nat, full: nat, rest: nat)
    requires WellShaped(pages) && numRows <= TABLE_MAX_ROWS
    requires full == numRows / ROWS_PER_PAGE && rest == numRows % ROWS_PER_PAGE
    requires 0 < rest && full < TABLE_MAX_PAGES && !AllZero(pages[full])
    ensures ClosedExtent(pages, numRows) == full * PAGE_SIZE + rest * ROW_SIZE
    ensures forall b: nat :: ClosedByte(pages, numRows, b)
              == (FlushedByte(pages, full, b) || (b / PAGE_SIZE == full && b % PAGE_SIZE < rest * ROW_SIZE))
  {
  }

  /** `ClosedFile` when no trailing page is written. */
  lemma ClosedFileUntrailed(file: seq<byte>, pages: seq<Page>, numRows: nat, full: nat)
    requires WellShaped(pages) && numRows <= TABLE_MAX_ROWS && full == numRows / ROWS_PER_PAGE
    requires numRows % ROWS_PER_PAGE == 0 || AllZero(pages[full])
    ensures ClosedFile(file, pages, numRows) == FlushFullPages(file, pages, full)
    ensures ClosedExtent(pages, numRows) == WrittenExtent(pages, full)
    ensures forall b: nat :: ClosedByte(pages, numRows, b) == FlushedByte(pages, full, b)
  {
  }

  /** Rows do not encode to all-zero bytes, so `db_close` never skips a page holding one. */
  predicate NoZeroRow(rows: seq<Row>)
  {
    forall k :: 0 <= k < |rows| ==> !AllZero(EncodeRow(rows[k]))
  }

  /** A page holding a row that is not all zeros is not all zeros. */
  lemma RowPageNonZero(pages: seq<Page>, rows: seq<Row>, k: nat)
    requires WellShaped(pages) && |rows| <= TABLE_MAX_ROWS && RowsOf(pages, |rows|) == rows
    requires NoZeroRow(rows) && k < |rows|
    ensures !AllZero(pages[RowSlot(k).page])
  {
    var s := RowSlot(k);
    var bytes := pages[s.page][s.offset..s.offset + ROW_SIZE];
    assert ReadRow(pages[s.page], s.offset) == rows[k];
    EncodeDecodeRow(bytes);
    var j :| 0 <= j < ROW_SIZE && EncodeRow(rows[k])[j] != 0;
    assert pages[s.page][s.offset + j] != 0;
  }

  /** Every page `db_close` looks at for `numRows` rows is not all zeros. */
  ghost predicate OccupiedPagesNonZero(pages: seq<Page>, numRows: nat)
    requires WellShaped(pages)
  {
    forall i :: 0 <= i < TABLE_MAX_PAGES && ClosesPage(i, numRows) ==> !AllZero(pages[i])
  }

  /** A page that `db_close` looks at starts with one of the table's rows. */
  lemma FirstRowOfPage(i: nat, numRows: nat)
    requires ClosesPage(i, numRows)
    ensures i * ROWS_PER_PAGE < numRows && RowSlot(i * ROWS_PER_PAGE).page == i
  {
  }

  /** When the table's rows are not all zeros, neither is any page `db_close` looks at. */
  lemma RowsFillPages(pages: seq<Page>, rows: seq<Row>)
    requires WellShaped(pages) && |rows| <= TABLE_MAX_ROWS && RowsOf(pages, |rows|) == rows
    requires NoZeroRow(rows)
    ensures OccupiedPagesNonZero(pages, |rows|)
  {
    forall i | 0 <= i < TABLE_MAX_PAGES && ClosesPage(i, |rows|)
      ensures !AllZero(pages[i])
    {
      FirstRowOfPage(i, |rows|);
      RowPageNonZero(pages, rows, i * ROWS_PER_PAGE);
    }
  }

  /** From an empty file, the whole-page loop of `db_close` writes the flat image
      of the pages it flushes. */
  lemma {:induction false} FullFlushFromEmpty(pages: seq<Page>, numRows: nat, i: nat)
    requires WellShaped(pages) && OccupiedPagesNonZero(pages, numRows)
    requires i <= numRows / ROWS_PER_PAGE && i <= TABLE_MAX_PAGES
    ensures FlushFullPages([], pages, i) == FlatBytes(pages, i * PAGE_SIZE)
  {
    if i > 0 {
      var k := i - 1;
      var before := FlushFullPages([], pages, k);
      FullFlushFromEmpty(pages, numRows, k);
      LoopPageNonZero(pages, numRows, k);
      FullPageExtendsFlat(pages, k, before);
    } else {
      assert FlatBytes(pages, 0) == [];
    }
  }

  /** Flushing page `k` in full right after the flat image of pages `0 .. k`
      extends the image by that page. */
  lemma FullPageExtendsFlat(pages: seq<Page>, k: nat, before: seq<byte>)
    requires WellShaped(pages) && k < TABLE_MAX_PAGES && before == FlatBytes(pages, k * PAGE_SIZE)
    ensures Flushed(before, k, pages[k], None) == FlatBytes(pages, (k + 1) * PAGE_SIZE)
  {
    assert pages[k][..PAGE_SIZE] == pages[k];
    assert k * PAGE_SIZE + PAGE_SIZE == (k + 1) * PAGE_SIZE;
    FlushExtendsFlat(pages, k, PAGE_SIZE);
  }

  /** A page the whole-page loop visits is not all zeros when no visited page is. */
  lemma LoopPageNonZero(pages: seq<Page>, numRows: nat, k: nat)
    requires WellShaped(pages) && OccupiedPagesNonZero(pages, numRows)
    requires k < numRows / ROWS_PER_PAGE && k < TABLE_MAX_PAGES
    ensures !AllZero(pages[k])
  {
    assert ClosesPage(k, numRows);
  }

  /** `ClosedFile` when there is no trailing page to write. */
  lemma ClosedFileWhole(file: seq<byte>, pages: seq<Page>, numRows: nat, full: nat)
    requires WellShaped(pages) && numRows <= TABLE_MAX_ROWS
    requires full == numRows / ROWS_PER_PAGE && numRows % ROWS_PER_PAGE == 0
    ensures ClosedFile(file, pages, numRows) == FlushFullPages(file, pages, full)
  {
  }

  /** `ClosedFile` when the trailing page holds rows and is not all zeros. */
  lemma ClosedFileTrailing(file: seq<byte>, pages: seq<Page>, numRows: nat, full: nat, rest: nat)
    requires WellShaped(pages) && numRows <= TABLE_MAX_ROWS
    requires full == numRows / ROWS_PER_PAGE && rest == numRows % ROWS_PER_PAGE
    requires 0 < rest && full < TABLE_MAX_PAGES && rest * ROW_SIZE <= PAGE_SIZE && !AllZero(pages[full])
    ensures ClosedFile(file, pages, numRows) == Flushed(FlushFullPages(file, pages, full), full, pages[full], Some(rest))
  {
  }

  /** From an empty file, `db_close` writes exactly the rows' bytes: the whole
      pages in full and then the occupied part of the trailing page. */
  lemma ClosedFromEmpty(pages: seq<Page>, numRows: nat)
    requires WellShaped(pages) && numRows <= TABLE_MAX_ROWS && OccupiedPagesNonZero(pages, numRows)
    ensures ClosedFile([], pages, numRows) == FlatBytes(pages, ClosedFileLength(numRows))
  {
    RowCountSplit(numRows);
    var full, rest := numRows / ROWS_PER_PAGE, numRows % ROWS_PER_PAGE;
    if rest > 0 {
      ClosedFromEmptyTrailing(pages, numRows, full, rest);
    } else {
      ClosedFromEmptyWhole(pages, numRows, full);
    }
  }

  /** The case of `ClosedFromEmpty` without a trailing partial page. */
  lemma ClosedFromEmptyWhole(pages: seq<Page>, numRows: nat, full: nat)
    requires WellShaped(pages) && numRows <= TABLE_MAX_ROWS && OccupiedPagesNonZero(pages, numRows)
    requires full == numRows / ROWS_PER_PAGE && numRows % ROWS_PER_PAGE == 0 && full <= TABLE_MAX_PAGES
    ensures ClosedFile([], pages, numRows) == FlatBytes(pages, ClosedFileLength(numRows))
  {
    FullFlushFromEmpty(pages, numRows, full);
    ClosedFileWhole([], pages, numRows, full);
    assert ClosedFileLength(numRows) == full * PAGE_SIZE;
  }

  /** The case of `ClosedFromEmpty` with a trailing partial page. */
  lemma ClosedFromEmptyTrailing(pages: seq<Page>, numRows: nat, full: nat, rest: nat)
    requires WellShaped(pages) && numRows <= TABLE_MAX_ROWS && OccupiedPagesNonZero(pages, numRows)
    requires full == numRows / ROWS_PER_PAGE && rest == numRows % ROWS_PER_PAGE
    requires 0 < rest && full < TABLE_MAX_PAGES
    ensures ClosedFile([], pages, numRows) == FlatBytes(pages, ClosedFileLength(numRows))
  {
    FullFlushFromEmpty(pages, numRows, full);
    assert ClosesPage(full, numRows);
    RowsFitPage(rest);
    ClosedFileTrailing([], pages, numRows, full, rest);
    TrailingFlush(pages, full, rest, FlushFullPages([], pages, full));
    assert ClosedFileLength(numRows) == full * PAGE_SIZE + rest * ROW_SIZE;
  }

  /** The occupied rows of page `full`, flushed right after the image of the
      whole pages before it, extend that image. */
  lemma TrailingFlush(pages: seq<Page>, full: nat, rest: nat, image: seq<byte>)
    requires WellShaped(pages) && full < TABLE_MAX_PAGES && 0 < rest < ROWS_PER_PAGE
    requires image == FlatBytes(pages, full * PAGE_SIZE)
    ensures rest * ROW_SIZE <= PAGE_SIZE
    ensures Flushed(image, full, pages[full], Some(rest)) == FlatBytes(pages, full * PAGE_SIZE + rest * ROW_SIZE)
  {
    RowsFitPage(rest);
    FlushExtendsFlat(pages, full, rest * ROW_SIZE);
  }

  /** A byte inside the flat image is loaded back at its own page and position. */
  lemma ReloadedByte(pages: seq<Page>, len: nat, i: nat, j: nat)
    requires WellShaped(pages) && len <= TABLE_MAX_PAGES * PAGE_SIZE
    requires i < TABLE_MAX_PAGES && j < PAGE_SIZE && i * PAGE_SIZE + j < len
    ensures PageCount(len) <= TABLE_MAX_PAGES
    ensures OpenedPages(FlatBytes(pages, len))[i][j] == pages[i][j]
  {
    OpenedPagesMirrorFile(FlatBytes(pages, len), i, j);
    PagePosition(i, j);
  }

  /** Each of the first `numRows` rows is loaded back from the flat image intact. */
  lemma ReopenedRow(pages: seq<Page>, numRows: nat, k: nat)
    requires WellShaped(pages) && k < numRows <= TABLE_MAX_ROWS
    ensures PageCount(ClosedFileLength(numRows)) <= TABLE_MAX_PAGES
    ensures RowAt(OpenedPages(FlatBytes(pages, ClosedFileLength(numRows))), k) == RowAt(pages, k)
  {
    var len := ClosedFileLength(numRows);
    var s := RowSlot(k);
    assert s.page * PAGE_SIZE + s.offset + ROW_SIZE <= len by {
      RowInsideImage(numRows, k);
    }
    ReloadedSlot(pages, len, s.page, s.offset);
  }

  /** The slot of row `k < numRows` lies inside the flat image of `numRows` rows. */
  lemma RowInsideImage(numRows: nat, k: nat)
    requires k < numRows <= TABLE_MAX_ROWS
    ensures RowSlot(k).page * PAGE_SIZE + RowSlot(k).offset + ROW_SIZE <= ClosedFileLength(numRows)
  {
  }

  /** The 291 bytes of a slot inside the flat image are loaded back unchanged. */
  lemma ReloadedSlot(pages: seq<Page>, len: nat, page: nat, offset: nat)
    requires WellShaped(pages) && len <= TABLE_MAX_PAGES * PAGE_SIZE
    requires page < TABLE_MAX_PAGES && offset + ROW_SIZE <= PAGE_SIZE && page * PAGE_SIZE + offset + ROW_SIZE <= len
    ensures PageCount(len) <= TABLE_MAX_PAGES
    ensures OpenedPages(FlatBytes(pages, len))[page][offset..offset + ROW_SIZE] == pages[page][offset..offset + ROW_SIZE]
  {
    var reloaded := OpenedPages(FlatBytes(pages, len));
    forall b | offset <= b < offset + ROW_SIZE
      ensures reloaded[page][b] == pages[page][b]
    {
      ReloadedByte(pages, len, page, b);
    }
  }

  /** Reopening the flat image of `numRows` rows loads pages that hold the same rows. */
  lemma ReopenFlat(pages: seq<Page>, numRows: nat)
    requires WellShaped(pages) && numRows <= TABLE_MAX_ROWS
    ensures PageCount(ClosedFileLength(numRows)) <= TABLE_MAX_PAGES
    ensures RowsOf(OpenedPages(FlatBytes(pages, ClosedFileLength(numRows))), numRows) == RowsOf(pages, numRows)
  {
    var reloaded := OpenedPages(FlatBytes(pages, ClosedFileLength(numRows)));
    forall k | 0 <= k < numRows
      ensures RowAt(reloaded, k) == RowAt(pages, k)
    {
      ReopenedRow(pages, numRows, k);
    }
  }

  /** Durability from an empty file: after `db_close` the file is `ClosedFileLength`
      bytes long, reopening it loads pages holding the same rows, and the reopened
      row count is right exactly while there are at most 13 whole pages. */
  lemma CloseReopenRoundTrip(pages: seq<Page>, rows: seq<Row>)
    requires WellShaped(pages) && |rows| <= TABLE_MAX_ROWS && RowsOf(pages, |rows|) == rows
    requires NoZeroRow(rows)
    ensures var file := ClosedFile([], pages, |rows|);
            && |file| == ClosedFileLength(|rows|)
            && PageCount(|file|) <= TABLE_MAX_PAGES
            && RowsOf(OpenedPages(file), |rows|) == rows
            && (OpenRowCount(|file|) == |rows| <==> |rows| / ROWS_PER_PAGE <= 13)
  {
    RowsFillPages(pages, rows);
    ClosedFromEmpty(pages, |rows|);
    ReopenFlat(pages, |rows|);
    OpenRowCountOfPages(|rows| / ROWS_PER_PAGE, |rows| % ROWS_PER_PAGE);
  }

  class Table {
    var numRows: nat
    var pager: Pager

    ghost predicate Valid()
      reads this, pager, pager.pages
    {
      pager.Valid()
    }

    /** The rows the table holds, in row order. */
    ghost function Rows(): seq<Row>
      reads this, pager, pager.pages
      requires Valid() && numRows <= TABLE_MAX_ROWS
    {
      RowsOf(pager.pages[..], numRows)
    }

    /** `db_open` over a file given as its contents. */
    constructor Open(contents: seq<byte>)
      requires PageCount(|contents|) <= TABLE_MAX_PAGES
      ensures Valid() && fresh(pager) && fresh(pager.pages)
      ensures pager.file == contents && pager.fileLength == |contents|
      ensures pager.pages[..] == OpenedPages(contents)
      ensures numRows == OpenRowCount(|contents|)
    {
      var p := new Pager.Open(contents);
      pager := p;
      numRows := p.fileLength / ROW_SIZE;
    }

    /** `serialize_row`: the id's four little-endian bytes, the username and the
        email are copied into the destination slot; nothing else changes. */
    method SerializeRow(source: Row, destination: Slot)
      requires Valid() && destination.page < TABLE_MAX_PAGES && destination.offset + ROW_SIZE <= PAGE_SIZE
      modifies pager.pages
      ensures Valid()
      ensures pager.pages[..] == old(pager.pages[..])[destination.page :=
                WriteRow(old(pager.pages[destination.page]), destination.offset, source)]
    {
      var off := destination.offset;
      var page := pager.pages[destination.page];
      ghost var before := page;
      page := CopyInto(page, off + ID_OFFSET, LeBytes(source.id));
      page := CopyInto(page, off + USERNAME_OFFSET, source.username);
      page := CopyInto(page, off + EMAIL_OFFSET, source.email);
      WriteFieldsInTurn(before, off, source);
      pager.pages[destination.page] := page;
    }

    /** `deserialize_row`: the row whose encoding is the 291 bytes at the slot. */
    function DeserializeRow(page: nat, offset: nat): (r: Row)
      reads this, pager, pager.pages
      requires Valid() && page < TABLE_MAX_PAGES && offset + ROW_SIZE <= PAGE_SIZE
      ensures EncodeRow(r) == pager.pages[page][offset..offset + ROW_SIZE]
    {
      EncodeDecodeRow(pager.pages[page][offset..offset + ROW_SIZE]);
      ReadRow(pager.pages[page], offset)
    }

    /** The whole-page loop of `db_close`: each of pages `0..count` that is not
        all zeros is flushed in full and reset; the others are left alone. */
    method FlushWholePages(count: nat)
      requires Valid() && count <= TABLE_MAX_PAGES
      modifies pager, pager.pages
      ensures Valid() && pager == old(pager) && pager.pages == old(pager.pages)
      ensures pager.fileLength == old(pager.fileLength) && pager.numPages == old(pager.numPages)
      ensures pager.file == FlushFullPages(old(pager.file), old(pager.pages[..]), count)
      ensures forall j :: 0 <= j < TABLE_MAX_PAGES ==>
                pager.pages[j] == if j < count && !AllZero(old(pager.pages[..])[j]) then Zeros(PAGE_SIZE) else old(pager.pages[..])[j]
    {
      ghost var pages0 := pager.pages[..];
      ghost var file0 := pager.file;
      for i := 0 to count
        invariant pager.Valid() && pager.pages == old(pager.pages)
        invariant pager.fileLength == old(pager.fileLength) && pager.numPages == old(pager.numPages)
        invariant pager.file == FlushFullPages(file0, pages0, i)
        invariant forall j :: 0 <= j < TABLE_MAX_PAGES ==>
                    pager.pages[j] == if j < i && !AllZero(pages0[j]) then Zeros(PAGE_SIZE) else pages0[j]
      {
        if !AllZero(pager.pages[i]) {
          pager.Flush(i, None);
          pager.pages[i] := Zeros(PAGE_SIZE);
        }
      }
    }

    /** The trailing-page step of `db_close`, taken when there are trailing rows:
        unless page `pageNum` is all zeros, its first `rest` rows are flushed and
        the page is reset. */
    method FlushTrailingPage(pageNum: nat, rest: nat)
      requires Valid() && pageNum < TABLE_MAX_PAGES && 0 < rest && rest * ROW_SIZE <= PAGE_SIZE
      modifies pager, pager.pages
      ensures Valid() && pager == old(pager) && pager.pages == old(pager.pages)
      ensures pager.fileLength == old(pager.fileLength) && pager.numPages == old(pager.numPages)
      ensures pager.file == if AllZero(old(pager.pages[pageNum])) then old(pager.file)
                            else Flushed(old(pager.file), pageNum, old(pager.pages[pageNum]), Some(rest))
      ensures forall j :: 0 <= j < TABLE_MAX_PAGES ==>
                pager.pages[j] == if j == pageNum && !AllZero(old(pager.pages[..])[j]) then Zeros(PAGE_SIZE) else old(pager.pages[..])[j]
    {
      if !AllZero(pager.pages[pageNum]) {
        pager.Flush(pageNum, Some(rest));
        pager.pages[pageNum] := Zeros(PAGE_SIZE);
      }
    }

    /** `db_close`: flush every whole page that is not all zeros and reset it,
        then flush the occupied rows of the trailing partial page and reset it.
        A table of more than `TABLE_MAX_ROWS` rows would index past the page array. */
    method Close()
      requires Valid() && numRows <= TABLE_MAX_ROWS
      modifies pager, pager.pages
      ensures Valid() && pager == old(pager) && pager.pages == old(pager.pages) && numRows == old(numRows)
      ensures pager.fileLength == old(pager.fileLength) && pager.numPages == old(pager.numPages)
      ensures pager.file == ClosedFile(old(pager.file), old(pager.pages[..]), numRows)
      ensures pager.pages[..] == ClosedPages(old(pager.pages[..]), numRows)
    {
      RowCountSplit(numRows);
      var numFullPages := numRows / ROWS_PER_PAGE;
      ghost var pages0 := pager.pages[..];
      ghost var file0 := pager.file;
      FlushWholePages(numFullPages);
      ghost var afterLoop := pager.pages[..];
      var numRemainingRows := numRows % ROWS_PER_PAGE;
      if numRemainingRows > 0 {
        RowsFitPage(numRemainingRows);
        FlushTrailingPage(numFullPages, numRemainingRows);
        if AllZero(pages0[numFullPages]) {
          ClosedFileUntrailed(file0, pages0, numRows, numFullPages);
        } else {
          ClosedFileTrailing(file0, pages0, numRows, numFullPages, numRemainingRows);
        }
      } else {
        ClosedFileWhole(file0, pages0, numRows, numFullPages);
      }
      ClosedPagesAfter(pages0, afterLoop, pager.pages[..], numRows);
    }
  }
}
