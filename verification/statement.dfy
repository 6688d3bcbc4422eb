/**
 * Statement recognition: the kind of a statement is decided by a
 * case-sensitive prefix test, and an `insert` statement carries the row
 * parsed from its text.
 */
module Statements {
  import opened Wrappers
  import opened Whitespace
  import opened IntParse
  import opened Database

  datatype StatementType = Select | Insert | Unrecognized

  datatype Statement = Statement(statementType: StatementType, statementStr: string, row: Option<Row>)

  /** `str::starts_with`, compared character by character. */
  function StartsWith(s: string, prefix: string): (b: bool)
    ensures b <==> |prefix| <= |s| && s[..|prefix|] == prefix
  {
    if prefix == [] then true
    else if s == [] then false
    else s[0] == prefix[0] && StartsWith(s[1..], prefix[1..])
  }

  /** `StatementType::get_statement_type`: `select` is tested before `insert`. */
  function GetStatementType(s: string): (t: StatementType)
    ensures t == Select <==> "select" <= s
    ensures t == Insert <==> "insert" <= s && !("select" <= s)
    ensures t == Unrecognized <==> !("select" <= s) && !("insert" <= s)
  {
    if StartsWith(s, "select") then Select
    else if StartsWith(s, "insert") then Insert
    else Unrecognized
  }

  /**
   * The test looks at the prefix only and is case-sensitive: anything after
   * `select` is irrelevant, and text not beginning with a lower-case `s` or
   * `i` (the empty text, `SELECT`, `Insert`) is unrecognised.
   */
  lemma ClassifyByPrefix(rest: string, s: string)
    ensures GetStatementType("select" + rest) == Select
    ensures GetStatementType("insert" + rest) == Insert
    ensures s == [] || (s[0] != 's' && s[0] != 'i') ==> GetStatementType(s) == Unrecognized
  {
    assert ("select" + rest)[..6] == "select";
    assert ("insert" + rest)[..6] == "insert";
  }

  /**
   * `prepare_statement`: keep the text, classify it, and build a row exactly
   * for an insert. Building the row panics when `Row::new` does; that is the
   * only way this fails.
   */
  function PrepareStatement(s: string): (r: Result<Statement, RowError>)
    ensures r.Err? <==> GetStatementType(s) == Insert && NewRow(s).Err?
    ensures r.Err? ==> r.error == NewRow(s).error
    ensures r.Ok? ==> r.value.statementStr == s && r.value.statementType == GetStatementType(s)
    ensures r.Ok? ==> (r.value.row.Some? <==> r.value.statementType == Insert)
    ensures r.Ok? && r.value.row.Some? ==> NewRow(s) == Ok(r.value.row.value)
  {
    var statementType := GetStatementType(s);
    match statementType
    case Insert =>
      (match NewRow(s)
       case Ok(row) => Ok(Statement(Insert, s, Some(row)))
       case Err(e) => Err(e))
    case _ => Ok(Statement(statementType, s, None))
  }

  /** A select never fails and carries no row, whatever follows the keyword. */
  lemma PrepareSelect(rest: string)
    ensures PrepareStatement("select" + rest) == Ok(Statement(Select, "select" + rest, None))
  {
    ClassifyByPrefix(rest, "");
  }

  /**
   * Every row with single-token name and breed survives the round trip
   * through the text of an `insert` statement.
   */
  lemma PrepareInsertRoundTrip(row: Row)
    requires IsWord(row.dogName) && IsWord(row.breed)
    ensures PrepareStatement(RowText("insert", row)) == Ok(Statement(Insert, RowText("insert", row), Some(row)))
  {
    var s := RowText("insert", row);
    assert s == "insert" + (" " + JoinSpaced([ShowInt(row.id), row.dogName, row.breed]));
    ClassifyByPrefix(" " + JoinSpaced([ShowInt(row.id), row.dogName, row.breed]), "");
    NewRowRoundTrip("insert", row);
  }

  /** An insert whose text has fewer than four tokens fails as `Row::new` does. */
  lemma PrepareShortInsertFails(rest: string)
    requires |Tokens("insert" + rest)| < 4
    ensures PrepareStatement("insert" + rest).Err?
  {
    ClassifyByPrefix(rest, "");
  }

  /** The examples of the source's unit test. */
  lemma PrepareExamples()
    ensures PrepareStatement("select *") == Ok(Statement(Select, "select *", None))
    ensures PrepareStatement("insert 1 evie jindo")
            == Ok(Statement(Insert, "insert 1 evie jindo", Some(Row(1, "evie", "jindo"))))
  {
    PrepareSelect(" *");
    assert "select" + " *" == "select *";
    ClassifyByPrefix(" 1 evie jindo", "");
    assert "insert" + " 1 evie jindo" == "insert 1 evie jindo";
    NewRowExample();
  }
}
