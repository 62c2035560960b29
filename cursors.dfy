/** The table cursor: a row number, an end-of-table flag and the table size it
    was created for, plus the `CursorLocation` tag and its hand-written equality. */
module Cursors {
  datatype CursorLocation = Start | End
  {
    /** `PartialEq::eq`: only `Start == Start` holds; in particular `End == End`
        is false, so the relation is not reflexive. */
    function Eq(other: CursorLocation): (b: bool)
    {
      match (this, other)
      case (Start, Start) => true
      case _ => false
    }
  }

  /** The equality agrees with `==` on `Start` and fails on every pair involving
      `End`; it is symmetric but not reflexive. */
  lemma CursorLocationEq(x: CursorLocation, y: CursorLocation)
    ensures x.Eq(y) <==> x == Start && y == Start
    ensures x.Eq(y) ==> x == y
    ensures x.Eq(y) == y.Eq(x)
    ensures !End.Eq(End)
  {
  }

  /** The three fields of a cursor as a value. */
  datatype CursorView = CursorView(rowNum: nat, endOfTable: bool, tableSize: nat)

  /** The cursor `table_start(n)` builds: at row 0 and not at the end, even for an
      empty table. */
  function StartView(tableSize: nat): (v: CursorView)
    ensures v.rowNum == 0 && !v.endOfTable && v.tableSize == tableSize
  {
    CursorView(0, false, tableSize)
  }

  /** The cursor `table_end(k, n)` builds: at row `k` and at the end. */
  function EndView(numRows: nat, tableSize: nat): (v: CursorView)
    ensures v.rowNum == numRows && v.endOfTable && v.tableSize == tableSize
  {
    CursorView(numRows, true, tableSize)
  }

  /** The cursor after one `advance`. */
  function Advanced(v: CursorView): CursorView
  {
    var rowNum := v.rowNum + 1;
    CursorView(rowNum, if rowNum >= v.tableSize then true else v.endOfTable, v.tableSize)
  }

  /** The cursor after `k` calls of `advance`. */
  function AdvancedBy(v: CursorView, k: nat): CursorView
    decreases k
  {
    if k == 0 then v else Advanced(AdvancedBy(v, k - 1))
  }

  /** One `advance` moves exactly one row on, keeps the table size, sets the flag
      once the row number reaches the size and otherwise keeps the old flag. */
  lemma AdvanceStep(v: CursorView)
    ensures Advanced(v).rowNum == v.rowNum + 1 && Advanced(v).tableSize == v.tableSize
    ensures Advanced(v).endOfTable <==> v.endOfTable || v.rowNum + 1 >= v.tableSize
  {
  }

  /** After `k` advances the row number has moved by `k`, the size is unchanged,
      and the flag is set exactly when it was set before or some step reached the size. */
  lemma {:induction false} AdvancedByFields(v: CursorView, k: nat)
    ensures AdvancedBy(v, k).rowNum == v.rowNum + k
    ensures AdvancedBy(v, k).tableSize == v.tableSize
    ensures AdvancedBy(v, k).endOfTable <==> v.endOfTable || (k >= 1 && v.rowNum + k >= v.tableSize)
  {
    if k > 0 {
      AdvancedByFields(v, k - 1);
    }
  }

  /** Once at the end, a cursor stays at the end. */
  lemma EndIsSticky(v: CursorView, k: nat)
    requires v.endOfTable
    ensures AdvancedBy(v, k).endOfTable
  {
    AdvancedByFields(v, k);
  }

  /** A cursor from `table_start(n)`, `n >= 1`, is not at the end after `k < n`
      advances and is at the end after `n`; for `n == 0` it reaches the end only
      after its first advance. */
  lemma AdvanceFromStart(n: nat, k: nat)
    ensures AdvancedBy(StartView(n), k) == CursorView(k, k >= 1 && k >= n, n)
    ensures 1 <= n ==> (AdvancedBy(StartView(n), k).endOfTable <==> n <= k)
  {
    AdvancedByFields(StartView(n), k);
  }

  class Cursor {
    var rowNum: nat
    var endOfTable: bool
    var tableSize: nat

    function View(): CursorView
      reads this
    {
      CursorView(rowNum, endOfTable, tableSize)
    }

    /** `Cursor::table_start`. */
    constructor TableStart(tableSize: nat)
      ensures View() == StartView(tableSize)
    {
      rowNum := 0;
      endOfTable := false;
      this.tableSize := tableSize;
    }

    /** `Cursor::table_end`. */
    constructor TableEnd(numRows: nat, tableSize: nat)
      ensures View() == EndView(numRows, tableSize)
    {
      rowNum := numRows;
      endOfTable := true;
      this.tableSize := tableSize;
    }

    /** `Cursor::advance`. */
    method Advance()
      modifies this
      ensures View() == Advanced(old(View()))
      ensures rowNum == old(rowNum) + 1 && tableSize == old(tableSize)
      ensures endOfTable == (old(endOfTable) || rowNum >= tableSize)
    {
      rowNum := rowNum + 1;
      if rowNum >= tableSize {
        endOfTable := true;
      }
    }
  }
}
