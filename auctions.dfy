/**
 The row-cleaning pass of `get_security_auctions` (main.py): the fixed column
 schema, a specification of what the pass does to one row and to the whole
 sequence of rows, and the nested loop itself as a method proved against it.
 */
module Auctions {
  import opened Wrappers

  /** How the pass treats a column: copied as text, or parsed as a float. */
  datatype ColumnType = Str | Float

  datatype Column = Column(name: string, ty: ColumnType)

  /** The schema, in the order the pass visits it (a Python dict keeps insertion order). */
  const Schema: seq<Column> := [
    Column("issue_date", Str),
    Column("cusip", Str),
    Column("security_term", Str),
    Column("price_per100", Float),
    Column("bid_to_cover_ratio", Float)
  ]

  /** The value the API sends for an unavailable number. */
  const NullSentinel: string := "null"

  /** One decoded JSON row: every field holds the string the API sent. */
  type Row = map<string, string>

  /** Python's `float(...)` on a string, left abstract: `None` is a ValueError. */
  type Parser = string -> Option<real>

  /** One entry of a cleaned row: a copied string or a parsed float. */
  datatype Cell = Text(text: string) | Number(value: real)

  /** A cleaned row (`row_copy`), one cell per schema column. */
  type Record = seq<Cell>

  /** The exceptions the pass lets escape. */
  datatype Error =
    | KeyError(key: string)    // a schema column missing from a row
    | ValueError(text: string) // `float` rejected a value

  /** What happens to one row. */
  datatype RowOutcome = Kept(cells: Record) | Dropped | Abort(error: Error)

  /** What the whole pass produces: `data_clean`, or the exception that ended it. */
  datatype Outcome = Ok(records: seq<Record>) | Err(error: Error)

  /** The outcome of a walk whose first cells are `prefix`, given the outcome of the rest of it. */
  function Resume(prefix: Record, rest: RowOutcome): (r: RowOutcome)
  {
    if rest.Kept? then Kept(prefix + rest.cells) else rest
  }

  /**
   Walking the columns `cols` of `row` in order: a string column is copied, a
   float column holding the sentinel drops the row at once, any other float
   value is parsed, and a missing column or a failed parse aborts.
   */
  function Walk(row: Row, cols: seq<Column>, parse: Parser): (r: RowOutcome)
    ensures r.Kept? ==> |r.cells| == |cols|
  {
    if cols == [] then Kept([])
    else
      var c := cols[0];
      if c.name !in row then Abort(KeyError(c.name))
      else if c.ty == Str then Resume([Text(row[c.name])], Walk(row, cols[1..], parse))
      else if row[c.name] == NullSentinel then Dropped
      else match parse(row[c.name])
        case None => Abort(ValueError(row[c.name]))
        case Some(x) => Resume([Number(x)], Walk(row, cols[1..], parse))
  }

  /** What the pass does to one row. */
  function CleanRow(row: Row, parse: Parser): (r: RowOutcome)
  {
    Walk(row, Schema, parse)
  }

  /** What the pass does to the rows in order: kept rows are appended, the first abort ends it. */
  function CleanRows(rows: seq<Row>, parse: Parser): (r: Outcome)
    ensures r.Ok? ==> |r.records| <= |rows|
  {
    if rows == [] then Ok([])
    else
      match CleanRows(rows[..|rows| - 1], parse)
      case Err(e) => Err(e)
      case Ok(acc) =>
        match CleanRow(rows[|rows| - 1], parse)
        case Kept(cells) => Ok(acc + [cells])
        case Dropped => Ok(acc)
        case Abort(e) => Err(e)
  }

  /** Resuming after one more cell is resuming with that cell appended to the prefix. */
  lemma ResumeThen(prefix: Record, cell: Cell, rest: RowOutcome)
    ensures Resume(prefix, Resume([cell], rest)) == Resume(prefix + [cell], rest)
  {
  }

  /** Unfolding the walk from column `j` on by one column. */
  lemma WalkFrom(row: Row, cols: seq<Column>, j: nat, parse: Parser)
    requires j < |cols|
    ensures cols[j].name !in row ==> Walk(row, cols[j..], parse) == Abort(KeyError(cols[j].name))
    ensures cols[j].name in row && cols[j].ty == Str ==>
      Walk(row, cols[j..], parse) == Resume([Text(row[cols[j].name])], Walk(row, cols[j + 1..], parse))
    ensures cols[j].name in row && cols[j].ty == Float && row[cols[j].name] == NullSentinel ==>
      Walk(row, cols[j..], parse) == Dropped
    ensures cols[j].name in row && cols[j].ty == Float && row[cols[j].name] != NullSentinel ==>
      Walk(row, cols[j..], parse) ==
        match parse(row[cols[j].name])
        case None => Abort(ValueError(row[cols[j].name]))
        case Some(x) => Resume([Number(x)], Walk(row, cols[j + 1..], parse))
  {
  }

  /** Once a prefix of the rows has aborted, so has every longer prefix, with the same error. */
  lemma {:induction false} ErrPersists(rows: seq<Row>, k: nat, parse: Parser)
    requires k <= |rows| && CleanRows(rows[..k], parse).Err?
    ensures CleanRows(rows, parse) == CleanRows(rows[..k], parse)
    decreases |rows| - k
  {
    if k < |rows| {
      assert rows[..k + 1][..k] == rows[..k];
      ErrPersists(rows, k + 1, parse);
    } else {
      assert rows[..k] == rows;
    }
  }

  /**
   The cleaning loop of `get_security_auctions`: for each row, walk the schema
   building `rowCopy`; a sentinel float empties it and breaks out; a non-empty
   `rowCopy` is appended to `dataClean`. A missing column or a failed parse
   ends the whole pass with that error.
   */
  method CleanAuctionRows(data: seq<Row>, parse: Parser) returns (r: Outcome)
    ensures r == CleanRows(data, parse)
  {
    var dataClean: seq<Record> := [];
    for i := 0 to |data|
      invariant CleanRows(data[..i], parse) == Ok(dataClean)
    {
      var row := data[i];
      var rowCopy: Record := [];
      var j := 0;
      assert Schema[j..] == Schema;
      assert Resume([], CleanRow(row, parse)) == CleanRow(row, parse) by {
        if CleanRow(row, parse).Kept? { assert [] + CleanRow(row, parse).cells == CleanRow(row, parse).cells; }
      }
      while j < |Schema|
        invariant 0 <= j <= |Schema|
        invariant |rowCopy| == j
        invariant Resume(rowCopy, Walk(row, Schema[j..], parse)) == CleanRow(row, parse)
      {
        var col := Schema[j];
        WalkFrom(row, Schema, j, parse);
        if col.name !in row {
          assert CleanRow(row, parse) == Abort(KeyError(col.name));
          assert data[..i + 1][..i] == data[..i];
          ErrPersists(data, i + 1, parse);
          return Err(KeyError(col.name));
        }
        if col.ty == Str {
          ResumeThen(rowCopy, Text(row[col.name]), Walk(row, Schema[j + 1..], parse));
          rowCopy := rowCopy + [Text(row[col.name])];
        } else if row[col.name] == NullSentinel {
          rowCopy := [];
          break;
        } else {
          match parse(row[col.name])
          case None =>
            assert CleanRow(row, parse) == Abort(ValueError(row[col.name]));
            assert data[..i + 1][..i] == data[..i];
            ErrPersists(data, i + 1, parse);
            return Err(ValueError(row[col.name]));
          case Some(x) =>
            ResumeThen(rowCopy, Number(x), Walk(row, Schema[j + 1..], parse));
            rowCopy := rowCopy + [Number(x)];
        }
        j := j + 1;
      }
      assert CleanRow(row, parse) == if |rowCopy| == 0 then Dropped else Kept(rowCopy);
      if |rowCopy| != 0 {
        dataClean := dataClean + [rowCopy];
      }
      assert data[..i + 1][..i] == data[..i];
    }
    assert data[..|data|] == data;
    r := Ok(dataClean);
  }
}
