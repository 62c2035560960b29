/** The page cache (`Pager`): a fixed array of `TABLE_MAX_PAGES` page buffers of
    `PAGE_SIZE` bytes over the database file. It preloads the file at open,
    re-reads a page whose buffer is all zeros (its "not loaded" heuristic), and
    writes a whole page or a prefix of one back. */
module PageCache {
  import opened Bytes
  import opened Wrappers
  import opened DiskFile
  import opened Layout

  type Page = seq<byte>

  /** The page array holds exactly `TABLE_MAX_PAGES` buffers of exactly `PAGE_SIZE` bytes. */
  predicate WellShaped(pages: seq<Page>)
  {
    |pages| == TABLE_MAX_PAGES && forall i :: 0 <= i < |pages| ==> |pages[i]| == PAGE_SIZE
  }

  /** `num_pages` at open: the number of pages needed to hold the file, ⌈len / PAGE_SIZE⌉. */
  function PageCount(fileLength: nat): (n: nat)
    ensures fileLength <= n * PAGE_SIZE
    ensures n == 0 || (n - 1) * PAGE_SIZE < fileLength
  {
    (fileLength + PAGE_SIZE - 1) / PAGE_SIZE
  }

  /** The alternative way `fetch_page` computes the same page count. */
  lemma PageCountByRemainder(fileLength: nat)
    ensures PageCount(fileLength) == fileLength / PAGE_SIZE + (if fileLength % PAGE_SIZE != 0 then 1 else 0)
  {
  }

  /** The buffer read for page `pageNum`: the file's bytes from `pageNum * PAGE_SIZE`,
      zero-padded past end-of-file. */
  function LoadPage(file: seq<byte>, pageNum: nat): (p: Page)
    ensures |p| == PAGE_SIZE
  {
    ReadAt(file, pageNum * PAGE_SIZE, PAGE_SIZE)
  }

  /** The page array right after `pager_open`. */
  function OpenedPages(file: seq<byte>): (pages: seq<Page>)
    requires PageCount(|file|) <= TABLE_MAX_PAGES
    ensures |pages| == TABLE_MAX_PAGES
    ensures forall i :: 0 <= i < TABLE_MAX_PAGES ==>
              pages[i] == if i < PageCount(|file|) then LoadPage(file, i) else Zeros(PAGE_SIZE)
    ensures WellShaped(pages)
  {
    var n := PageCount(|file|);
    seq(TABLE_MAX_PAGES, i => if 0 <= i < n then LoadPage(file, i) else Zeros(PAGE_SIZE))
  }

  /** The page array while `pager_open` loads pages: pages `0 .. k` hold what was
      read from the file, the rest are still the zero buffers. */
  ghost predicate LoadedUpTo(file: seq<byte>, pages: seq<Page>, k: nat)
  {
    |pages| == TABLE_MAX_PAGES &&
    forall i :: 0 <= i < TABLE_MAX_PAGES ==> pages[i] == if i < k then LoadPage(file, i) else Zeros(PAGE_SIZE)
  }

  /** Loading page `k` extends the loaded prefix by one page. */
  lemma LoadStep(file: seq<byte>, pages: seq<Page>, k: nat)
    requires LoadedUpTo(file, pages, k) && k < TABLE_MAX_PAGES
    ensures LoadedUpTo(file, pages[k := ReadAt(file, k * PAGE_SIZE, PAGE_SIZE)], k + 1)
  {
  }

  /** Once every page of the file is loaded, the page array is `OpenedPages`. */
  lemma LoadedAll(file: seq<byte>, pages: seq<Page>)
    requires PageCount(|file|) <= TABLE_MAX_PAGES && LoadedUpTo(file, pages, PageCount(|file|))
    ensures pages == OpenedPages(file)
  {
  }

  /** After `pager_open`, byte `j` of page `i` is byte `i * PAGE_SIZE + j` of the
      file, or zero past end-of-file; in particular every page from `num_pages`
      on is all zeros. */
  lemma OpenedPagesMirrorFile(file: seq<byte>, i: nat, j: nat)
    requires PageCount(|file|) <= TABLE_MAX_PAGES
    requires i < TABLE_MAX_PAGES && j < PAGE_SIZE
    ensures OpenedPages(file)[i][j] == (if i * PAGE_SIZE + j < |file| then file[i * PAGE_SIZE + j] else 0)
    ensures i >= PageCount(|file|) ==> AllZero(OpenedPages(file)[i])
  {
    var n := PageCount(|file|);
    if i >= n {
      assert n * PAGE_SIZE <= i * PAGE_SIZE by {
        assert (i - n) * PAGE_SIZE >= 0;
      }
      assert OpenedPages(file)[i] == Zeros(PAGE_SIZE);
    } else {
      assert OpenedPages(file)[i] == LoadPage(file, i);
    }
  }

  /** The page array after `fetch_page(pageNum)`: an all-zero buffer is taken to be
      "not loaded" and replaced by the page read from the file; any other buffer is kept. */
  function Fetched(pages: seq<Page>, file: seq<byte>, pageNum: nat): (r: seq<Page>)
    requires pageNum < |pages|
    ensures |r| == |pages|
    ensures forall i :: 0 <= i < |pages| && i != pageNum ==> r[i] == pages[i]
    ensures !AllZero(pages[pageNum]) ==> r == pages
    ensures WellShaped(pages) ==> WellShaped(r)
  {
    if AllZero(pages[pageNum]) then pages[pageNum := LoadPage(file, pageNum)] else pages
  }

  /** Fetching the same page twice gives the same page array as fetching it once,
      whether or not the page read from the file is itself all zeros. */
  lemma FetchIdempotent(pages: seq<Page>, file: seq<byte>, pageNum: nat)
    requires pageNum < |pages|
    ensures Fetched(Fetched(pages, file, pageNum), file, pageNum) == Fetched(pages, file, pageNum)
  {
  }

  /** The bytes `flush` writes: the first `n * ROW_SIZE` bytes of the page for
      `Some(n)`, the whole page for `None`. */
  function FlushedBytes(page: Page, rows: Option<nat>): (bs: seq<byte>)
    requires rows.Some? ==> rows.value * ROW_SIZE <= |page|
    ensures |bs| == if rows.Some? then rows.value * ROW_SIZE else |page|
  {
    match rows
    case Some(n) => page[..n * ROW_SIZE]
    case None => page
  }

  /** The file after `flush(pageNum, rows)` writes page `page` at `pageNum * PAGE_SIZE`. */
  function Flushed(file: seq<byte>, pageNum: nat, page: Page, rows: Option<nat>): seq<byte>
    requires rows.Some? ==> rows.value * ROW_SIZE <= |page|
  {
    WriteAt(file, pageNum * PAGE_SIZE, FlushedBytes(page, rows))
  }

  class Pager {
    /** The contents of the database file behind `file_descriptor`. */
    var file: seq<byte>
    /** The file's length when it was opened; later flushes do not update it. */
    var fileLength: nat
    var numPages: nat
    var pages: array<Page>

    ghost predicate Valid()
      reads this, pages
    {
      WellShaped(pages[..]) && numPages == PageCount(fileLength) && numPages <= TABLE_MAX_PAGES
    }

    /** `pager_open`: the file is given as its contents. Opening a file of more
        than `TABLE_MAX_PAGES` pages indexes past the page array, so it is excluded. */
    constructor Open(contents: seq<byte>)
      requires PageCount(|contents|) <= TABLE_MAX_PAGES
      ensures Valid() && fresh(pages)
      ensures file == contents && fileLength == |contents| && numPages == PageCount(|contents|)
      ensures pages[..] == OpenedPages(contents)
    {
      var n := (|contents| + PAGE_SIZE - 1) / PAGE_SIZE;
      var buffers := new Page[TABLE_MAX_PAGES](_ => Zeros(PAGE_SIZE));
      assert LoadedUpTo(contents, buffers[..], 0);
      for pageNum := 0 to n
        invariant LoadedUpTo(contents, buffers[..], pageNum)
      {
        var buffer := ReadAt(contents, pageNum * PAGE_SIZE, PAGE_SIZE);
        LoadStep(contents, buffers[..], pageNum);
        buffers[pageNum] := buffer;
      }
      LoadedAll(contents, buffers[..]);
      file := contents;
      fileLength := |contents|;
      numPages := n;
      pages := buffers;
    }

    /** `fetch_page`: a page number above `num_pages` panics, and so does one past
        the page array; `num_pages` itself is accepted. */
    method FetchPage(pageNum: nat) returns (page: Page)
      requires Valid() && pageNum <= numPages && pageNum < TABLE_MAX_PAGES
      modifies pages
      ensures Valid()
      ensures pages[..] == Fetched(old(pages[..]), file, pageNum)
      ensures page == pages[pageNum] && |page| == PAGE_SIZE
      ensures !AllZero(old(pages[pageNum])) ==> pages[..] == old(pages[..])
      ensures AllZero(old(pages[pageNum])) ==> page == LoadPage(file, pageNum)
      ensures forall i :: 0 <= i < TABLE_MAX_PAGES && i != pageNum ==> pages[i] == old(pages[i])
    {
      if AllZero(pages[pageNum]) {
        var buffer := Zeros(PAGE_SIZE);
        var n := fileLength / PAGE_SIZE;
        if fileLength % PAGE_SIZE != 0 {
          n := n + 1;
        }
        PageCountByRemainder(fileLength);
        if pageNum <= n {
          buffer := ReadAt(file, pageNum * PAGE_SIZE, PAGE_SIZE);
        }
        pages[pageNum] := buffer;
      }
      page := pages[pageNum];
    }

    /** `flush`: write page `pageNum`, in full or its first `n` rows, at file
        offset `pageNum * PAGE_SIZE`. A row count whose bytes exceed the page
        would slice past the buffer, so it is excluded. */
    method Flush(pageNum: nat, numRemainingRows: Option<nat>)
      requires Valid() && pageNum < TABLE_MAX_PAGES
      requires numRemainingRows.Some? ==> numRemainingRows.value * ROW_SIZE <= PAGE_SIZE
      modifies this
      ensures Valid() && pages == old(pages)
      ensures fileLength == old(fileLength) && numPages == old(numPages)
      ensures file == Flushed(old(file), pageNum, pages[pageNum], numRemainingRows)
      ensures var n := |FlushedBytes(pages[pageNum], numRemainingRows)|;
              && n == (if numRemainingRows.Some? then numRemainingRows.value * ROW_SIZE else PAGE_SIZE)
              && |file| == (if n == 0 then |old(file)| else Max(|old(file)|, pageNum * PAGE_SIZE + n))
              && (forall j :: 0 <= j < n ==> file[pageNum * PAGE_SIZE + j] == pages[pageNum][j])
              && forall i :: 0 <= i < |file| && !(pageNum * PAGE_SIZE <= i < pageNum * PAGE_SIZE + n) ==>
                   file[i] == (if i < |old(file)| then old(file)[i] else 0)
    {
      match numRemainingRows
      case Some(n) =>
        var offset := n * ROW_SIZE;
        var bytesToWrite := pages[pageNum][..offset];
        file := WriteAt(file, pageNum * PAGE_SIZE, bytesToWrite);
      case None =>
        file := WriteAt(file, pageNum * PAGE_SIZE, pages[pageNum]);
    }
  }
}
