/** Statement preparation and execution: `prepare_statement` parses an input line
    into a `Statement`, `execute_insert` appends its row to the table,
    `execute_select` yields the table's rows in order, and `execute_meta_command`
    handles the dot-commands. Input lines are their UTF-8 bytes. */
module Repl {
  import opened Bytes
  import opened Wrappers
  import opened Layout
  import opened PageCache
  import opened Tables
  import opened Lexing

  /** "insert" */
  const INSERT: seq<byte> := [105, 110, 115, 101, 114, 116]
  /** "select" */
  const SELECT: seq<byte> := [115, 101, 108, 101, 99, 116]
  /** ".exit" */
  const EXIT: seq<byte> := [46, 101, 120, 105, 116]

  datatype StatementType = Insert | Select

  datatype PrepareSyntaxError = InvalidId | InvalidUsername | InvalidEmail | InvalidNumberOfArguments

  /** The outcome of `prepare_statement`; `SyntaxError` is Rust's
      `StatementResult::PrepareSyntaxError`. */
  datatype StatementResult = Success | UnrecognizedStatement | SyntaxError(error: PrepareSyntaxError)

  datatype ExecuteResult = Success | TableFull

  datatype MetaCommandResult = Success | UnrecognizedCommand

  /** What `execute_meta_command` does: end the process with a status, or return. */
  datatype MetaOutcome = ExitProcess(status: int) | Returned(result: MetaCommandResult)

  /** `execute_meta_command`: ".exit" ends the process with status 0; every other
      command is unrecognized. */
  function ExecuteMetaCommand(cmd: seq<byte>): (r: MetaOutcome)
    ensures r.ExitProcess? <==> cmd == EXIT
    ensures r.ExitProcess? ==> r.status == 0
    ensures r.Returned? ==> r.result == MetaCommandResult.UnrecognizedCommand
  {
    if cmd == EXIT then ExitProcess(0) else Returned(MetaCommandResult.UnrecognizedCommand)
  }

  /** No meta-command ever returns `Success`, whatever it is. */
  lemma MetaCommandNeverSucceeds(cmd: seq<byte>)
    ensures ExecuteMetaCommand(cmd) != Returned(MetaCommandResult.Success)
    ensures ExecuteMetaCommand([46, 117, 110, 107, 110, 111, 119, 110]) == Returned(MetaCommandResult.UnrecognizedCommand)
  {
  }

  /** The three fields of a `Statement` as a value. */
  datatype StatementView = StatementView(statementType: StatementType, text: seq<byte>, rowToInsert: Row)

  /** `Statement::new()`. */
  function NewStatement(): (st: StatementView)
    ensures st.statementType == Insert && st.text == [] && st.rowToInsert == NewRow()
  {
    StatementView(Insert, [], NewRow())
  }

  /** The result of `prepare_statement` together with the statement it leaves behind. */
  datatype Prepared = Prepared(result: StatementResult, statement: StatementView)

  /** `prepare_statement(input, st)`. The fields are written one by one as the
      checks pass, so a failed check leaves the fields written before it. */
  function Prepare(input: seq<byte>, st: StatementView): Prepared
  {
    if StartsWith(input, INSERT) then
      var st1 := st.(statementType := Insert, text := input);
      var parts := Tokens(input);
      if |parts| != 4 then Prepared(SyntaxError(InvalidNumberOfArguments), st1)
      else match ParseU32(parts[1])
        case None => Prepared(SyntaxError(InvalidId), st1)
        case Some(id) =>
          var st2 := st1.(rowToInsert := st1.rowToInsert.(id := id));
          if |parts[2]| > USERNAME_SIZE then Prepared(SyntaxError(InvalidUsername), st2)
          else
            var st3 := st2.(rowToInsert := st2.rowToInsert.(username := PadTo(parts[2], USERNAME_SIZE)));
            if |parts[3]| > EMAIL_SIZE then Prepared(SyntaxError(InvalidEmail), st3)
            else Prepared(StatementResult.Success, st3.(rowToInsert := st3.rowToInsert.(email := PadTo(parts[3], EMAIL_SIZE))))
    else if input == SELECT then
      Prepared(StatementResult.Success, st.(statementType := Select, text := input))
    else Prepared(UnrecognizedStatement, st)
  }

  /** A line that starts with neither keyword, and is not exactly "select", is
      unrecognized and leaves the statement as it was. */
  lemma PrepareUnrecognized(input: seq<byte>, st: StatementView)
    requires !StartsWith(input, INSERT) && input != SELECT
    ensures Prepare(input, st) == Prepared(UnrecognizedStatement, st)
  {
  }

  /** Exactly "select" prepares a `Select` statement. */
  lemma PrepareSelect(st: StatementView)
    ensures Prepare(SELECT, st).result == StatementResult.Success
    ensures Prepare(SELECT, st).statement == st.(statementType := Select, text := SELECT)
  {
    assert SELECT[0] != INSERT[0];
  }

  /** For an "insert" line the checks run in the order argument count, id,
      username length, email length; the first that fails decides the error, and
      the type and text are written whatever the outcome. */
  lemma PrepareInsertChecks(input: seq<byte>, st: StatementView)
    requires StartsWith(input, INSERT)
    ensures var p := Prepare(input, st);
            var parts := Tokens(input);
            && p.statement.statementType == Insert && p.statement.text == input
            && (|parts| != 4 ==> p.result == SyntaxError(InvalidNumberOfArguments))
            && (|parts| == 4 && ParseU32(parts[1]).None? ==> p.result == SyntaxError(InvalidId))
            && (|parts| == 4 && ParseU32(parts[1]).Some? && |parts[2]| > USERNAME_SIZE ==>
                  p.result == SyntaxError(InvalidUsername))
            && (|parts| == 4 && ParseU32(parts[1]).Some? && |parts[2]| <= USERNAME_SIZE && |parts[3]| > EMAIL_SIZE ==>
                  p.result == SyntaxError(InvalidEmail))
  {
  }

  /** Preparation succeeds exactly for "select" and for an "insert" line of four
      tokens whose id parses and whose username and email fit. A successful insert
      holds the parsed id and the two tokens zero-padded to their field widths,
      and leaves nothing of the old row behind. */
  lemma PrepareSucceeds(input: seq<byte>, st: StatementView)
    ensures var parts := Tokens(input);
            Prepare(input, st).result == StatementResult.Success <==>
              input == SELECT
              || (StartsWith(input, INSERT) && |parts| == 4 && ParseU32(parts[1]).Some?
                  && |parts[2]| <= USERNAME_SIZE && |parts[3]| <= EMAIL_SIZE)
    ensures var parts := Tokens(input);
            var p := Prepare(input, st);
            p.result == StatementResult.Success && StartsWith(input, INSERT) ==>
              && p.statement.statementType == Insert && p.statement.text == input
              && p.statement.rowToInsert.id == ParseU32(parts[1]).value
              && p.statement.rowToInsert.username[..|parts[2]|] == parts[2]
              && AllZero(p.statement.rowToInsert.username[|parts[2]|..])
              && p.statement.rowToInsert.email[..|parts[3]|] == parts[3]
              && AllZero(p.statement.rowToInsert.email[|parts[3]|..])
  {
    if input == SELECT {
      assert SELECT[0] != INSERT[0];
    }
  }

  /** The line `kw id username email`, with single spaces, prepares the insert of
      exactly that row, for every `u32` id and every username and email token
      that fits. Only a prefix of the first token is checked: any `kw` beginning
      with "insert" is accepted. */
  lemma PrepareInsertLine(kw: seq<byte>, id: u32, username: seq<byte>, email: seq<byte>, st: StatementView)
    requires IsToken(kw) && StartsWith(kw, INSERT)
    requires IsToken(username) && |username| <= USERNAME_SIZE
    requires IsToken(email) && |email| <= EMAIL_SIZE
    ensures var input := Unwords([kw, Decimal(id), username, email]);
            Prepare(input, st)
            == Prepared(StatementResult.Success,
                        StatementView(Insert, input, Row(id, PadTo(username, USERNAME_SIZE), PadTo(email, EMAIL_SIZE))))
  {
    var ws := [kw, Decimal(id), username, email];
    var input := Unwords(ws);
    ParseDecimal(id);
    TokensUnwords(ws);
    assert input[..|INSERT|] == kw[..|INSERT|];
  }

  /** "user1" */
  const USER1: seq<byte> := [117, 115, 101, 114, 49]
  /** "user1@example.com" */
  const USER1_EMAIL: seq<byte> := [117, 115, 101, 114, 49, 64, 101, 120, 97, 109, 112, 108, 101, 46, 99, 111, 109]
  /** "email@test.com" */
  const TEST_EMAIL: seq<byte> := [101, 109, 97, 105, 108, 64, 116, 101, 115, 116, 46, 99, 111, 109]

  /** "insert 1 user1 user1@example.com" prepares the insert of row 1 with those
      two strings at the front of their fields. */
  lemma PrepareInsertExample()
    ensures var p := Prepare(Unwords([INSERT, [49], USER1, USER1_EMAIL]), NewStatement());
            && p.result == StatementResult.Success && p.statement.statementType == Insert
            && p.statement.rowToInsert.id == 1
            && p.statement.rowToInsert.username[..|USER1|] == USER1
            && p.statement.rowToInsert.email[..|USER1_EMAIL|] == USER1_EMAIL
  {
    assert Decimal(1) == [49];
    PrepareInsertLine(INSERT, 1, USER1, USER1_EMAIL, NewStatement());
  }

  /** "insert 1 user1" has too few arguments. */
  lemma PrepareTooFewArgumentsExample(st: StatementView)
    ensures Prepare(Unwords([INSERT, [49], USER1]), st).result == SyntaxError(InvalidNumberOfArguments)
  {
    var a := Unwords([INSERT, [49], USER1]);
    TokensUnwords([INSERT, [49], USER1]);
    assert a[..|INSERT|] == INSERT;
  }

  /** "insert abc user1 email@test.com" has an invalid id. */
  lemma PrepareInvalidIdExample(st: StatementView)
    ensures Prepare(Unwords([INSERT, [97, 98, 99], USER1, TEST_EMAIL]), st).result == SyntaxError(InvalidId)
  {
    var b := Unwords([INSERT, [97, 98, 99], USER1, TEST_EMAIL]);
    TokensUnwords([INSERT, [97, 98, 99], USER1, TEST_EMAIL]);
    assert b[..|INSERT|] == INSERT;
    ParseRejectsNonDigit([97, 98, 99], 0);
  }

  /** A 33-byte username is too long. */
  lemma PrepareLongUsernameExample(st: StatementView)
    ensures Prepare(Unwords([INSERT, [49], seq(33, _ => 97), TEST_EMAIL]), st).result == SyntaxError(InvalidUsername)
  {
    var c := Unwords([INSERT, [49], seq(33, _ => 97), TEST_EMAIL]);
    TokensUnwords([INSERT, [49], seq(33, _ => 97), TEST_EMAIL]);
    assert c[..|INSERT|] == INSERT;
    ParseDecimal(1);
    assert Decimal(1) == [49];
  }

  /** A 256-byte email is too long. */
  lemma PrepareLongEmailExample(st: StatementView)
    ensures Prepare(Unwords([INSERT, [49], USER1, seq(256, _ => 97)]), st).result == SyntaxError(InvalidEmail)
  {
    var d := Unwords([INSERT, [49], USER1, seq(256, _ => 97)]);
    TokensUnwords([INSERT, [49], USER1, seq(256, _ => 97)]);
    assert d[..|INSERT|] == INSERT;
    ParseDecimal(1);
    assert Decimal(1) == [49];
  }

  /** "invalid statement" is unrecognized. */
  lemma PrepareUnrecognizedExample(st: StatementView)
    ensures Prepare([105, 110, 118, 97, 108, 105, 100, 32, 115, 116, 97, 116, 101, 109, 101, 110, 116], st).result
            == UnrecognizedStatement
  {
    var input: seq<byte> := [105, 110, 118, 97, 108, 105, 100, 32, 115, 116, 97, 116, 101, 109, 101, 110, 116];
    assert input[2] != INSERT[2];
    assert |input| != |SELECT|;
    PrepareUnrecognized(input, st);
  }

  class Statement {
    var statementType: StatementType
    /** The input line, `statement` in the source. */
    var text: seq<byte>
    var rowToInsert: Row

    function View(): StatementView
      reads this
    {
      StatementView(statementType, text, rowToInsert)
    }

    /** `Statement::new()`. */
    constructor ()
      ensures View() == NewStatement()
    {
      statementType := Insert;
      text := [];
      rowToInsert := NewRow();
    }
  }

  /** `prepare_statement`: fills `statement` in place as the checks pass. */
  method PrepareStatement(input: seq<byte>, statement: Statement) returns (res: StatementResult)
    modifies statement
    ensures Prepared(res, statement.View()) == Prepare(input, old(statement.View()))
  {
    if |INSERT| <= |input| && input[..|INSERT|] == INSERT {
      statement.statementType := Insert;
      statement.text := input;
      var parts := Tokens(input);
      if |parts| != 4 {
        return SyntaxError(InvalidNumberOfArguments);
      }
      match ParseU32(parts[1]) {
        case Some(id) =>
          statement.rowToInsert := statement.rowToInsert.(id := id);
        case None =>
          return SyntaxError(InvalidId);
      }
      var usernameBytes := parts[2];
      if |usernameBytes| > USERNAME_SIZE {
        return SyntaxError(InvalidUsername);
      }
      statement.rowToInsert := statement.rowToInsert.(username := Zeros(USERNAME_SIZE));
      statement.rowToInsert := statement.rowToInsert.(username := CopyInto(statement.rowToInsert.username, 0, usernameBytes));
      var emailBytes := parts[3];
      if |emailBytes| > EMAIL_SIZE {
        return SyntaxError(InvalidEmail);
      }
      statement.rowToInsert := statement.rowToInsert.(email := Zeros(EMAIL_SIZE));
      statement.rowToInsert := statement.rowToInsert.(email := CopyInto(statement.rowToInsert.email, 0, emailBytes));
      return StatementResult.Success;
    } else if input == SELECT {
      statement.statementType := Select;
      statement.text := input;
      return StatementResult.Success;
    } else {
      return UnrecognizedStatement;
    }
  }

  /** `execute_insert`: a full table is refused and left alone; otherwise the
      row goes into slot `RowSlot(num_rows)` and becomes the last row. */
  method ExecuteInsert(statement: Statement, table: Table) returns (res: ExecuteResult)
    requires table.Valid()
    modifies table, table.pager.pages
    ensures table.Valid() && table.pager == old(table.pager) && table.pager.pages == old(table.pager.pages)
    ensures table.pager.file == old(table.pager.file)
    ensures old(table.numRows) >= TABLE_MAX_ROWS ==>
              res == TableFull && table.numRows == old(table.numRows) && table.pager.pages[..] == old(table.pager.pages[..])
    ensures old(table.numRows) < TABLE_MAX_ROWS ==>
              && res == ExecuteResult.Success && table.numRows == old(table.numRows) + 1
              && table.pager.pages[..] == InsertRow(old(table.pager.pages[..]), old(table.numRows), statement.rowToInsert)
              && table.Rows() == old(table.Rows()) + [statement.rowToInsert]
  {
    if table.numRows >= TABLE_MAX_ROWS {
      return TableFull;
    }
    var rowToInsert := statement.rowToInsert;
    var slot := RowSlot(table.numRows);
    InsertRowAppends(table.pager.pages[..], table.numRows, rowToInsert);
    table.SerializeRow(rowToInsert, slot);
    table.numRows := table.numRows + 1;
    return ExecuteResult.Success;
  }

  /** `execute_select`: the rows `0 .. num_rows` in ascending order. A row count
      past `TABLE_MAX_ROWS` would index past the page array, so it is excluded. */
  method ExecuteSelect(statement: Statement, table: Table) returns (res: ExecuteResult, rows: seq<Row>)
    requires table.Valid() && table.numRows <= TABLE_MAX_ROWS
    ensures res == ExecuteResult.Success
    ensures rows == table.Rows()
  {
    rows := [];
    for i := 0 to table.numRows
      invariant rows == table.Rows()[..i]
    {
      var slot := RowSlot(i);
      var row := table.DeserializeRow(slot.page, slot.offset);
      rows := rows + [row];
    }
    return ExecuteResult.Success, rows;
  }

  /** `execute_statement`: dispatch on the statement type. */
  method ExecuteStatement(statement: Statement, table: Table) returns (res: ExecuteResult, rows: seq<Row>)
    requires table.Valid()
    requires statement.statementType == Select ==> table.numRows <= TABLE_MAX_ROWS
    modifies table, table.pager.pages
    ensures table.Valid() && table.pager == old(table.pager) && table.pager.pages == old(table.pager.pages)
    ensures table.pager.file == old(table.pager.file)
    ensures statement.statementType == Select ==>
              res == ExecuteResult.Success && table.numRows == old(table.numRows) && rows == table.Rows()
              && table.pager.pages[..] == old(table.pager.pages[..])
    ensures statement.statementType == Insert ==> rows == []
    ensures statement.statementType == Insert && old(table.numRows) >= TABLE_MAX_ROWS ==>
              res == TableFull && table.numRows == old(table.numRows) && table.pager.pages[..] == old(table.pager.pages[..])
    ensures statement.statementType == Insert && old(table.numRows) < TABLE_MAX_ROWS ==>
              && res == ExecuteResult.Success && table.numRows == old(table.numRows) + 1
              && table.pager.pages[..] == InsertRow(old(table.pager.pages[..]), old(table.numRows), statement.rowToInsert)
              && table.Rows() == old(table.Rows()) + [statement.rowToInsert]
  {
    match statement.statementType {
      case Insert =>
        res := ExecuteInsert(statement, table);
        rows := [];
      case Select =>
        res, rows := ExecuteSelect(statement, table);
    }
  }

  /** The page array after `execute_insert` has appended `rs` in turn to a table of `n` rows. */
  function InsertAll(pages: seq<Page>, n: nat, rs: seq<Row>): (p: seq<Page>)
    requires WellShaped(pages) && n + |rs| <= TABLE_MAX_ROWS
    ensures WellShaped(p)
    decreases |rs|
  {
    if |rs| == 0 then pages else InsertAll(InsertRow(pages, n, rs[0]), n + 1, rs[1..])
  }

  /** Inserting rows in turn leaves every earlier row in place and makes the new
      rows the last ones, in insertion order. */
  lemma {:induction false} InsertAllAppends(pages: seq<Page>, n: nat, rs: seq<Row>)
    requires WellShaped(pages) && n + |rs| <= TABLE_MAX_ROWS
    ensures RowsOf(InsertAll(pages, n, rs), n + |rs|) == RowsOf(pages, n) + rs
    decreases |rs|
  {
    if |rs| > 0 {
      var next := InsertRow(pages, n, rs[0]);
      InsertRowAppends(pages, n, rs[0]);
      InsertAllAppends(next, n + 1, rs[1..]);
      AppendInTurn(RowsOf(InsertAll(pages, n, rs), n + |rs|), RowsOf(next, n + 1), RowsOf(pages, n), rs);
    }
  }

  /** Appending the first row, then the rest, appends them all. */
  lemma AppendInTurn(all: seq<Row>, middle: seq<Row>, before: seq<Row>, rs: seq<Row>)
    requires |rs| > 0 && middle == before + [rs[0]] && all == middle + rs[1..]
    ensures all == before + rs
  {
    assert rs == [rs[0]] + rs[1..];
  }

  /** A session over an empty database file: insert `rs`, close, reopen. The
      reopened table counts `|rs|` rows and a select returns `rs` in insertion
      order, provided the rows fill at most 13 whole pages and none encodes to
      all zeros. */
  lemma InsertCloseReopen(rs: seq<Row>)
    requires |rs| / ROWS_PER_PAGE <= 13 && NoZeroRow(rs)
    ensures var pages := InsertAll(OpenedPages([]), 0, rs);
            var file := ClosedFile([], pages, |rs|);
            && PageCount(|file|) <= TABLE_MAX_PAGES
            && OpenRowCount(|file|) == |rs|
            && RowsOf(OpenedPages(file), OpenRowCount(|file|)) == rs
  {
    var pages := InsertAll(OpenedPages([]), 0, rs);
    InsertAllAppends(OpenedPages([]), 0, rs);
    assert RowsOf(OpenedPages([]), 0) == [];
    CloseReopenRoundTrip(pages, rs);
  }
}
