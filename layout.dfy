/** The fixed row layout of the table: the size and offset constants, the `Row`
    record, the stride arithmetic that places row `n` in a page (`row_slot`),
    and the byte codec that `serialize_row` and `deserialize_row` apply to one
    page buffer. */
module Layout {
  import opened Bytes

  const ID_SIZE: nat := 4
  const USERNAME_SIZE: nat := 32
  const EMAIL_SIZE: nat := 255

  const ID_OFFSET: nat := 0
  const USERNAME_OFFSET: nat := ID_OFFSET + ID_SIZE
  const EMAIL_OFFSET: nat := USERNAME_OFFSET + USERNAME_SIZE
  const ROW_SIZE: nat := ID_SIZE + USERNAME_SIZE + EMAIL_SIZE

  const PAGE_SIZE: nat := 4096
  const TABLE_MAX_PAGES: nat := 100
  /** `PAGE_SIZE / ROW_SIZE`, written out as its value; LayoutConstants checks it. */
  const ROWS_PER_PAGE: nat := 14
  /** `ROWS_PER_PAGE * TABLE_MAX_PAGES`, written out as its value; LayoutConstants checks it. */
  const TABLE_MAX_ROWS: nat := 1400

  /** The derived constants have the values the on-disk format depends on;
      every page ends in 22 unused padding bytes. */
  lemma LayoutConstants()
    ensures ROW_SIZE == 291 && ID_OFFSET == 0 && USERNAME_OFFSET == 4 && EMAIL_OFFSET == 36
    ensures ROWS_PER_PAGE == PAGE_SIZE / ROW_SIZE == 14
    ensures TABLE_MAX_ROWS == ROWS_PER_PAGE * TABLE_MAX_PAGES == 1400
    ensures PAGE_SIZE == ROWS_PER_PAGE * ROW_SIZE + 22
  {
  }

  type Username = s: seq<byte> | |s| == USERNAME_SIZE witness Zeros(USERNAME_SIZE)
  type Email = s: seq<byte> | |s| == EMAIL_SIZE witness Zeros(EMAIL_SIZE)

  /** A table row: `id: u32`, `username: [u8; 32]`, `email: [u8; 255]`. */
  datatype Row = Row(id: u32, username: Username, email: Email)

  /** `Row::new()`: the all-zero row. */
  function NewRow(): (r: Row)
    ensures r.id == 0 && AllZero(r.username) && AllZero(r.email)
  {
    Row(0, Zeros(USERNAME_SIZE), Zeros(EMAIL_SIZE))
  }

  /** Where a row lives: a page number and a byte offset in that page (`TableOffset`). */
  datatype Slot = Slot(page: nat, offset: nat)

  /** `row_slot`: row `n` is row `n mod 14` of page `n / 14`. The slot lies
      wholly inside its page, on a row boundary, and determines `n`. */
  function RowSlot(rowNum: nat): (s: Slot)
    ensures s.offset % ROW_SIZE == 0 && s.offset + ROW_SIZE <= PAGE_SIZE
    ensures s.page * ROWS_PER_PAGE + s.offset / ROW_SIZE == rowNum
  {
    var pageNum := rowNum / ROWS_PER_PAGE;
    var rowOffset := rowNum % ROWS_PER_PAGE;
    Slot(pageNum, rowOffset * ROW_SIZE)
  }

  /** A row count up to `TABLE_MAX_ROWS` splits into whole pages and a trailing
      partial page that fit the page array. */
  lemma RowCountSplit(n: nat)
    requires n <= TABLE_MAX_ROWS
    ensures n == (n / ROWS_PER_PAGE) * ROWS_PER_PAGE + n % ROWS_PER_PAGE
    ensures n / ROWS_PER_PAGE <= TABLE_MAX_PAGES
    ensures n % ROWS_PER_PAGE > 0 ==> n / ROWS_PER_PAGE < TABLE_MAX_PAGES
    ensures (n % ROWS_PER_PAGE) * ROW_SIZE + ROW_SIZE <= PAGE_SIZE
  {
  }

  /** Up to `ROWS_PER_PAGE` rows fit in one page. */
  lemma RowsFitPage(k: nat)
    requires k <= ROWS_PER_PAGE
    ensures k * ROW_SIZE <= PAGE_SIZE
  {
  }

  /** Distinct rows occupy distinct pages or non-overlapping byte ranges of one page. */
  lemma RowSlotsDisjoint(m: nat, n: nat)
    requires m != n
    ensures RowSlot(m).page != RowSlot(n).page
         || RowSlot(m).offset + ROW_SIZE <= RowSlot(n).offset
         || RowSlot(n).offset + ROW_SIZE <= RowSlot(m).offset
  {
    var a, b := RowSlot(m), RowSlot(n);
    if a.page == b.page {
      var i, j := a.offset / ROW_SIZE, b.offset / ROW_SIZE;
      assert a.offset == i * ROW_SIZE && b.offset == j * ROW_SIZE;
      assert i != j;
      if i < j {
        assert (j - i) * ROW_SIZE >= ROW_SIZE;
      } else {
        assert (i - j) * ROW_SIZE >= ROW_SIZE;
      }
    }
  }

  /** The first `ROWS_PER_PAGE` rows share page 0 and the next ones start page 1. */
  lemma PageBoundarySlots(i: nat)
    requires i < ROWS_PER_PAGE + 2
    ensures RowSlot(i).page == (if i < ROWS_PER_PAGE then 0 else 1)
    ensures RowSlot(i).offset == (if i < ROWS_PER_PAGE then i else i - ROWS_PER_PAGE) * ROW_SIZE
  {
  }

  /** `id.to_le_bytes()`. */
  function LeBytes(x: u32): (bs: seq<byte>)
    ensures |bs| == ID_SIZE
  {
    var q1 := x / 256;
    var q2 := q1 / 256;
    [x % 256, q1 % 256, q2 % 256, q2 / 256]
  }

  /** `u32::from_le_bytes`. */
  function LeValue(bs: seq<byte>): u32
    requires |bs| == ID_SIZE
  {
    var b0, b1, b2, b3: int := bs[0], bs[1], bs[2], bs[3];
    b0 + 256 * b1 + 65536 * b2 + 16777216 * b3
  }

  lemma LeValueOfBytes(x: u32)
    ensures LeValue(LeBytes(x)) == x
  {
    var q1 := x / 256;
    var q2 := q1 / 256;
    assert x == x % 256 + 256 * q1;
    assert q1 == q1 % 256 + 256 * q2;
    assert q2 == q2 % 256 + 256 * (q2 / 256);
  }

  lemma LeBytesOfValue(bs: seq<byte>)
    requires |bs| == ID_SIZE
    ensures LeBytes(LeValue(bs)) == bs
  {
    var x: int := LeValue(bs);
    var b0, b1, b2, b3: int := bs[0], bs[1], bs[2], bs[3];
    var q1 := b1 + 256 * b2 + 65536 * b3;
    var q2 := b2 + 256 * b3;
    assert x == b0 + 256 * q1;
    assert x % 256 == b0 && x / 256 == q1;
    assert q1 == b1 + 256 * q2;
    assert q1 % 256 == b1 && q1 / 256 == q2;
    assert q2 % 256 == b2 && q2 / 256 == b3;
  }

  /** The 291 bytes of a row: id little-endian, then the username, then the email. */
  function EncodeRow(r: Row): (bs: seq<byte>)
    ensures |bs| == ROW_SIZE
  {
    LeBytes(r.id) + r.username + r.email
  }

  function DecodeRow(bs: seq<byte>): Row
    requires |bs| == ROW_SIZE
  {
    Row(LeValue(bs[ID_OFFSET..USERNAME_OFFSET]), bs[USERNAME_OFFSET..EMAIL_OFFSET], bs[EMAIL_OFFSET..ROW_SIZE])
  }

  /** Decoding an encoded row gives the row back, in all three fields. */
  lemma DecodeEncodeRow(r: Row)
    ensures DecodeRow(EncodeRow(r)) == r
  {
    var bs := EncodeRow(r);
    assert bs[ID_OFFSET..USERNAME_OFFSET] == LeBytes(r.id);
    assert bs[USERNAME_OFFSET..EMAIL_OFFSET] == r.username;
    assert bs[EMAIL_OFFSET..ROW_SIZE] == r.email;
    LeValueOfBytes(r.id);
  }

  /** Every 291-byte range is the encoding of exactly the row decoded from it,
      so the codec is a bijection and reconstructs bit-identical bytes. */
  lemma EncodeDecodeRow(bs: seq<byte>)
    requires |bs| == ROW_SIZE
    ensures EncodeRow(DecodeRow(bs)) == bs
  {
    LeBytesOfValue(bs[ID_OFFSET..USERNAME_OFFSET]);
    assert bs == bs[ID_OFFSET..USERNAME_OFFSET] + bs[USERNAME_OFFSET..EMAIL_OFFSET] + bs[EMAIL_OFFSET..ROW_SIZE];
  }

  /** The page buffer after `serialize_row` writes `r` at byte offset `off`. */
  function WriteRow(page: seq<byte>, off: nat, r: Row): (p: seq<byte>)
    requires off + ROW_SIZE <= |page|
    ensures |p| == |page|
    ensures p[off + ID_OFFSET..off + USERNAME_OFFSET] == LeBytes(r.id)
    ensures p[off + USERNAME_OFFSET..off + EMAIL_OFFSET] == r.username
    ensures p[off + EMAIL_OFFSET..off + ROW_SIZE] == r.email
    ensures forall i :: 0 <= i < |page| && !(off <= i < off + ROW_SIZE) ==> p[i] == page[i]
  {
    var p := CopyInto(page, off, EncodeRow(r));
    assert p[off..off + ROW_SIZE] == EncodeRow(r);
    assert p[off + ID_OFFSET..off + USERNAME_OFFSET] == EncodeRow(r)[ID_OFFSET..USERNAME_OFFSET];
    assert p[off + USERNAME_OFFSET..off + EMAIL_OFFSET] == EncodeRow(r)[USERNAME_OFFSET..EMAIL_OFFSET];
    assert p[off + EMAIL_OFFSET..off + ROW_SIZE] == EncodeRow(r)[EMAIL_OFFSET..ROW_SIZE];
    p
  }

  /** Copying the id's bytes, the username and the email into their places one
      after the other writes the whole row. */
  lemma WriteFieldsInTurn(page: seq<byte>, off: nat, r: Row)
    requires off + ROW_SIZE <= |page|
    ensures CopyInto(CopyInto(CopyInto(page, off + ID_OFFSET, LeBytes(r.id)), off + USERNAME_OFFSET, r.username),
                     off + EMAIL_OFFSET, r.email) == WriteRow(page, off, r)
  {
    var a := CopyInto(page, off + ID_OFFSET, LeBytes(r.id));
    var b := CopyInto(a, off + USERNAME_OFFSET, r.username);
    var c := CopyInto(b, off + EMAIL_OFFSET, r.email);
    var w := WriteRow(page, off, r);
    forall i | 0 <= i < |c| ensures c[i] == w[i] {
      if off + ID_OFFSET <= i < off + USERNAME_OFFSET {
        assert c[i] == a[off + ID_OFFSET..off + USERNAME_OFFSET][i - off];
        assert w[i] == w[off + ID_OFFSET..off + USERNAME_OFFSET][i - off];
      } else if off + USERNAME_OFFSET <= i < off + EMAIL_OFFSET {
        assert c[i] == b[off + USERNAME_OFFSET..off + EMAIL_OFFSET][i - off - USERNAME_OFFSET];
        assert w[i] == w[off + USERNAME_OFFSET..off + EMAIL_OFFSET][i - off - USERNAME_OFFSET];
      } else if off + EMAIL_OFFSET <= i < off + ROW_SIZE {
        assert c[i] == c[off + EMAIL_OFFSET..off + ROW_SIZE][i - off - EMAIL_OFFSET];
        assert w[i] == w[off + EMAIL_OFFSET..off + ROW_SIZE][i - off - EMAIL_OFFSET];
      }
    }
  }

  /** The row `deserialize_row` reads from byte offset `off` of a page buffer. */
  function ReadRow(page: seq<byte>, off: nat): Row
    requires off + ROW_SIZE <= |page|
  {
    DecodeRow(page[off..off + ROW_SIZE])
  }

  /** Round trip within a page: reading a slot just written returns the row written. */
  lemma ReadWrittenRow(page: seq<byte>, off: nat, r: Row)
    requires off + ROW_SIZE <= |page|
    ensures ReadRow(WriteRow(page, off, r), off) == r
  {
    var p := WriteRow(page, off, r);
    assert p[off..off + ROW_SIZE] == EncodeRow(r) by {
      assert p[off..off + ROW_SIZE] == p[off + ID_OFFSET..off + USERNAME_OFFSET]
        + p[off + USERNAME_OFFSET..off + EMAIL_OFFSET] + p[off + EMAIL_OFFSET..off + ROW_SIZE];
    }
    DecodeEncodeRow(r);
  }

  /** Writing a row leaves a row stored in a non-overlapping range unchanged. */
  lemma ReadOtherRow(page: seq<byte>, off: nat, r: Row, other: nat)
    requires off + ROW_SIZE <= |page| && other + ROW_SIZE <= |page|
    requires off + ROW_SIZE <= other || other + ROW_SIZE <= off
    ensures ReadRow(WriteRow(page, off, r), other) == ReadRow(page, other)
  {
    var p := WriteRow(page, off, r);
    assert p[other..other + ROW_SIZE] == page[other..other + ROW_SIZE];
  }
}
