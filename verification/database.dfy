/**
 * The in-memory table of dog rows: an append-only list of rows, and the
 * parser that builds a row from an `insert` statement's text.
 */
module Database {
  import opened Wrappers
  import opened Whitespace
  import opened IntParse

  datatype Row = Row(id: I32, dogName: string, breed: string)

  /**
   * Why building a row panics, in the order the fields are evaluated:
   * the second token is absent, it is not an `i32`, the third token is
   * absent, the fourth token is absent.
   */
  datatype RowError = MissingId | BadId | MissingName | MissingBreed

  /**
   * `Row::new`: skip the first whitespace-separated token, parse the second
   * as the id, take the third and fourth as name and breed; anything after
   * the fourth token is ignored.
   */
  function NewRow(s: string): (r: Result<Row, RowError>)
    ensures r.Ok? <==> |Tokens(s)| >= 4 && ParseI32(Tokens(s)[1]).Some?
    ensures r.Ok? ==> IsWord(r.value.dogName) && IsWord(r.value.breed)
    ensures r.Ok? ==> Some(r.value.id) == ParseI32(Tokens(s)[1])
    ensures r.Ok? ==> r.value.dogName == Tokens(s)[2] && r.value.breed == Tokens(s)[3]
    ensures |Tokens(s)| < 2 ==> r == Err(MissingId)
    ensures |Tokens(s)| >= 2 && ParseI32(Tokens(s)[1]).None? ==> r == Err(BadId)
  {
    var ts := Tokens(s);
    if |ts| < 2 then Err(MissingId)
    else
      match ParseI32(ts[1])
      case None => Err(BadId)
      case Some(id) =>
        if |ts| < 3 then Err(MissingName)
        else if |ts| < 4 then Err(MissingBreed)
        else Ok(Row(id, ts[2], ts[3]))
  }

  /** The text an `insert` statement for `row` carries after its keyword. */
  function RowText(command: string, row: Row): string {
    JoinSpaced([command, ShowInt(row.id), row.dogName, row.breed])
  }

  /**
   * Every row whose name and breed are single tokens is recovered from the
   * statement text that spells it out, whatever the first token is.
   */
  lemma NewRowRoundTrip(command: string, row: Row)
    requires IsWord(command) && IsWord(row.dogName) && IsWord(row.breed)
    ensures NewRow(RowText(command, row)) == Ok(row)
  {
    var ts := [command, ShowInt(row.id), row.dogName, row.breed];
    assert IsWord(ShowInt(row.id)) by {
      var t := ShowInt(row.id);
      assert forall i :: 0 <= i < |t| ==> t[i] == '-' || IsDigit(t[i]);
    }
    TokensJoinSpaced(ts);
    ParseShowInt(row.id);
  }

  /** The row does not depend on how the tokens are laid out with whitespace. */
  lemma NewRowLayoutIndependent(s: string)
    ensures NewRow(JoinSpaced(Tokens(s))) == NewRow(s)
  {
    TokensLayoutIndependent(s);
  }

  /** Tokens after the fourth are ignored: text appended after whitespace changes nothing. */
  lemma NewRowIgnoresExtraTokens(s: string, ws: string, rest: string)
    requires |Tokens(s)| >= 4
    requires ws != [] && AllWhitespace(ws)
    ensures NewRow(s + ws + rest) == NewRow(s)
  {
    TokensCollapseWhitespace(s, ws, rest);
    var ts := Tokens(s + ws + rest);
    assert ts[..4] == Tokens(s)[..4];
  }

  /** The example of the source's unit test: `insert 1 evie jindo`. */
  lemma NewRowExample()
    ensures NewRow("insert 1 evie jindo") == Ok(Row(1, "evie", "jindo"))
  {
    var row := Row(1, "evie", "jindo");
    assert ShowInt(1) == "1";
    assert RowText("insert", row) == "insert 1 evie jindo";
    NewRowRoundTrip("insert", row);
  }

  /** The table: rows in insertion order, never removed or changed. */
  class Table {
    var rows: seq<Row>

    /** `Table::new`: no rows. */
    constructor ()
      ensures rows == []
      ensures RowCount() == 0
    {
      rows := [];
    }

    /** `insert_row`: append a copy of `row` after every row already stored. */
    method InsertRow(row: Row)
      modifies this
      ensures rows == old(rows) + [row]
      ensures RowCount() == old(RowCount()) + 1
      ensures forall i :: 0 <= i < |old(rows)| ==> rows[i] == old(rows)[i]
    {
      rows := rows + [row];
    }

    /** `row_count`: the number of rows stored; reads the table and changes nothing. */
    function RowCount(): (n: nat)
      reads this
      ensures n == |rows|
    {
      |rows|
    }
  }

  /**
   * The scenario of the source's table test: a new table counts no rows,
   * and inserting the row parsed from `insert 1 evie jindo` makes it one.
   */
  method TableScenario() returns (before: nat, after: nat, stored: Row)
    ensures before == 0 && after == 1
    ensures stored == Row(1, "evie", "jindo")
  {
    var table := new Table();
    before := table.RowCount();
    NewRowExample();
    var parsed := NewRow("insert 1 evie jindo");
    table.InsertRow(parsed.value);
    after := table.RowCount();
    stored := table.rows[0];
  }
}
