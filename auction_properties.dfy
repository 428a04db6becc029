/**
 What the row-cleaning pass of `get_security_auctions` guarantees, stated
 independently of how `Auctions.Walk` and `Auctions.CleanRows` compute it:
 which rows survive, in what order, in what shape, and which error ends the
 pass when it does not finish.
 */
module AuctionProperties {
  import opened Wrappers
  import opened Auctions

  /** Column `c` of `row` lets the walk go on: present, and text or a non-sentinel value that parses. */
  predicate Passes(row: Row, c: Column, parse: Parser)
  {
    c.name in row && (c.ty == Str || (row[c.name] != NullSentinel && parse(row[c.name]).Some?))
  }

  /** Column `c` of `row` is a float column holding the sentinel. */
  predicate IsNull(row: Row, c: Column)
  {
    c.name in row && c.ty == Float && row[c.name] == NullSentinel
  }

  /** Walking `cols` in order, column `k` is the first one that does not pass. */
  predicate StopsAt(row: Row, cols: seq<Column>, k: int, parse: Parser)
  {
    0 <= k < |cols| && !Passes(row, cols[k], parse) &&
    forall i :: 0 <= i < k ==> Passes(row, cols[i], parse)
  }

  /** The cell a passing column contributes to a kept row. */
  function CellOf(row: Row, c: Column, parse: Parser): (cell: Cell)
    requires Passes(row, c, parse)
  {
    if c.ty == Str then Text(row[c.name]) else Number(parse(row[c.name]).value)
  }

  /** The exception raised at a column that neither passes nor holds the sentinel. */
  function FailureOf(row: Row, c: Column): (e: Error)
  {
    if c.name !in row then KeyError(c.name) else ValueError(row[c.name])
  }

  // ---------------------------------------------------------------------------
  // One row, any column list

  /** A walk keeps the row exactly when every column passes, and then holds one cell per column. */
  lemma {:induction false} WalkKept(row: Row, cols: seq<Column>, parse: Parser)
    ensures Walk(row, cols, parse).Kept? <==> forall i :: 0 <= i < |cols| ==> Passes(row, cols[i], parse)
    ensures Walk(row, cols, parse).Kept? ==>
      forall i :: 0 <= i < |cols| ==> Walk(row, cols, parse).cells[i] == CellOf(row, cols[i], parse)
  {
    if cols != [] {
      WalkKept(row, cols[1..], parse);
      var c := cols[0];
      if (forall i :: 0 <= i < |cols| ==> Passes(row, cols[i], parse)) {
        assert forall i :: 0 <= i < |cols| - 1 ==> cols[1..][i] == cols[i + 1];
        assert Walk(row, cols, parse).Kept?;
        forall i | 0 <= i < |cols|
          ensures Walk(row, cols, parse).cells[i] == CellOf(row, cols[i], parse)
        {
          if i > 0 {
            assert cols[1..][i - 1] == cols[i];
          }
        }
      } else {
        var k :| 0 <= k < |cols| && !Passes(row, cols[k], parse);
        if Passes(row, c, parse) {
          assert cols[1..][k - 1] == cols[k];
        }
      }
    }
  }

  /** A walk that stops at column `k` drops the row if `k` holds the sentinel and aborts otherwise. */
  lemma {:induction false} WalkStops(row: Row, cols: seq<Column>, k: int, parse: Parser)
    requires StopsAt(row, cols, k, parse)
    ensures Walk(row, cols, parse) == if IsNull(row, cols[k]) then Dropped else Abort(FailureOf(row, cols[k]))
  {
    if k > 0 {
      assert forall i :: 0 <= i < k - 1 ==> cols[1..][i] == cols[i + 1];
      assert Passes(row, cols[0], parse);
      assert StopsAt(row, cols[1..], k - 1, parse);
      WalkStops(row, cols[1..], k - 1, parse);
    }
  }

  /** The walk stops at most at one column. */
  lemma StopIsUnique(row: Row, cols: seq<Column>, k: int, k': int, parse: Parser)
    requires StopsAt(row, cols, k, parse) && StopsAt(row, cols, k', parse)
    ensures k == k'
  {
  }

  /** A walk over columns that do not all pass stops somewhere. */
  lemma {:induction false} SomeStop(row: Row, cols: seq<Column>, parse: Parser) returns (k: int)
    requires exists i :: 0 <= i < |cols| && !Passes(row, cols[i], parse)
    ensures StopsAt(row, cols, k, parse)
  {
    if !Passes(row, cols[0], parse) {
      k := 0;
    } else {
      var i :| 0 <= i < |cols| && !Passes(row, cols[i], parse);
      assert cols[1..][i - 1] == cols[i];
      var k' := SomeStop(row, cols[1..], parse);
      k := k' + 1;
      forall h | 0 <= h < k
        ensures Passes(row, cols[h], parse)
      {
        if h > 0 {
          assert cols[1..][h - 1] == cols[h];
        }
      }
    }
  }

  /** A walk drops the row exactly when the first column that does not pass holds the sentinel. */
  lemma {:induction false} WalkDropped(row: Row, cols: seq<Column>, parse: Parser)
    ensures Walk(row, cols, parse) == Dropped <==>
      exists k :: StopsAt(row, cols, k, parse) && IsNull(row, cols[k])
  {
    WalkKept(row, cols, parse);
    if !Walk(row, cols, parse).Kept? {
      var k := SomeStop(row, cols, parse);
      WalkStops(row, cols, k, parse);
      forall k' | StopsAt(row, cols, k', parse)
        ensures k' == k
      {
        StopIsUnique(row, cols, k, k', parse);
      }
    }
  }

  /**
   A walk aborts with `e` exactly when the first column that does not pass
   does not hold the sentinel either, and `e` is its error: a KeyError when it
   is missing, a ValueError when its value does not parse.
   */
  lemma {:induction false} WalkAborts(row: Row, cols: seq<Column>, parse: Parser, e: Error)
    ensures Walk(row, cols, parse) == Abort(e) <==>
      exists k :: StopsAt(row, cols, k, parse) && !IsNull(row, cols[k]) && e == FailureOf(row, cols[k])
  {
    WalkKept(row, cols, parse);
    if !Walk(row, cols, parse).Kept? {
      var k := SomeStop(row, cols, parse);
      WalkStops(row, cols, k, parse);
      forall k' | StopsAt(row, cols, k', parse)
        ensures k' == k
      {
        StopIsUnique(row, cols, k, k', parse);
      }
    }
  }

  // ---------------------------------------------------------------------------
  // One row, the auction schema

  /**
   A row is kept exactly when all five schema columns are present and both
   float columns hold a non-sentinel value that parses; the kept row is then
   the three strings verbatim followed by the two parsed numbers, in schema order.
   */
  lemma CleanRowKept(row: Row, parse: Parser)
    ensures CleanRow(row, parse).Kept? <==>
      "issue_date" in row && "cusip" in row && "security_term" in row &&
      "price_per100" in row && row["price_per100"] != NullSentinel && parse(row["price_per100"]).Some? &&
      "bid_to_cover_ratio" in row && row["bid_to_cover_ratio"] != NullSentinel && parse(row["bid_to_cover_ratio"]).Some?
    ensures CleanRow(row, parse).Kept? ==> CleanRow(row, parse).cells == [
      Text(row["issue_date"]), Text(row["cusip"]), Text(row["security_term"]),
      Number(parse(row["price_per100"]).value), Number(parse(row["bid_to_cover_ratio"]).value)]
  {
    WalkKept(row, Schema, parse);
    if CleanRow(row, parse).Kept? {
      assert Passes(row, Schema[0], parse) && Passes(row, Schema[1], parse) && Passes(row, Schema[2], parse);
      assert Passes(row, Schema[3], parse) && Passes(row, Schema[4], parse);
    } else {
      var k :| 0 <= k < |Schema| && !Passes(row, Schema[k], parse);
      assert k == 0 || k == 1 || k == 2 || k == 3 || k == 4;
    }
  }

  /**
   A `"null"` price drops the row before the bid-to-cover ratio is looked at:
   nothing is required of that column, so the row is dropped whatever it
   holds, an unparseable value included, and also when it is missing.
   */
  lemma NullPriceDropsRow(row: Row, parse: Parser)
    requires "issue_date" in row && "cusip" in row && "security_term" in row
    requires "price_per100" in row && row["price_per100"] == NullSentinel
    ensures CleanRow(row, parse) == Dropped
  {
    assert StopsAt(row, Schema, 3, parse);
    WalkStops(row, Schema, 3, parse);
  }

  /**
   A price that is neither `"null"` nor parseable aborts the pass with a
   ValueError; nothing is required of the bid-to-cover ratio, so this holds
   even when that column is `"null"` or missing.
   */
  lemma BadPriceAborts(row: Row, parse: Parser)
    requires "issue_date" in row && "cusip" in row && "security_term" in row
    requires "price_per100" in row && row["price_per100"] != NullSentinel && parse(row["price_per100"]).None?
    ensures CleanRow(row, parse) == Abort(ValueError(row["price_per100"]))
  {
    assert StopsAt(row, Schema, 3, parse);
    WalkStops(row, Schema, 3, parse);
  }

  /**
   A missing bid-to-cover ratio is a KeyError once the walk reaches it, that
   is, when the price is present, not `"null"` and parses.
   */
  lemma MissingRatioAborts(row: Row, parse: Parser)
    requires "issue_date" in row && "cusip" in row && "security_term" in row
    requires "price_per100" in row && row["price_per100"] != NullSentinel && parse(row["price_per100"]).Some?
    requires "bid_to_cover_ratio" !in row
    ensures CleanRow(row, parse) == Abort(KeyError("bid_to_cover_ratio"))
  {
    assert StopsAt(row, Schema, 4, parse);
    WalkStops(row, Schema, 4, parse);
  }

  /** The result of a walk that does not abort depends on the sentinel alone: kept exactly when no float column is `"null"`. */
  lemma CleanRowKeptUnlessNull(row: Row, parse: Parser)
    requires !CleanRow(row, parse).Abort?
    ensures CleanRow(row, parse).Kept? <==> !HasNullFloat(row)
  {
    CleanRowKept(row, parse);
    if !CleanRow(row, parse).Kept? {
      assert CleanRow(row, parse) == Dropped;
      WalkDropped(row, Schema, parse);
      var k :| StopsAt(row, Schema, k, parse) && IsNull(row, Schema[k]);
      assert k == 3 || k == 4;
    }
  }

  // ---------------------------------------------------------------------------
  // The whole pass

  /** The row has `"null"` in one of the float columns. */
  predicate HasNullFloat(row: Row)
  {
    ("price_per100" in row && row["price_per100"] == NullSentinel) ||
    ("bid_to_cover_ratio" in row && row["bid_to_cover_ratio"] == NullSentinel)
  }

  /** How many rows have `"null"` in a float column. */
  function CountWithNull(rows: seq<Row>): (n: nat)
    ensures n <= |rows|
  {
    if rows == [] then 0
    else CountWithNull(rows[..|rows| - 1]) + (if HasNullFloat(rows[|rows| - 1]) then 1 else 0)
  }

  /** The positions of the kept rows, in increasing order. */
  function KeptIndices(rows: seq<Row>, parse: Parser): (idx: seq<int>)
    ensures forall j :: 0 <= j < |idx| ==> 0 <= idx[j] < |rows|
    ensures forall j, j' :: 0 <= j < j' < |idx| ==> idx[j] < idx[j']
    ensures forall i :: 0 <= i < |rows| ==> (i in idx <==> CleanRow(rows[i], parse).Kept?)
  {
    if rows == [] then []
    else
      var prefix := KeptIndices(rows[..|rows| - 1], parse);
      if CleanRow(rows[|rows| - 1], parse).Kept? then prefix + [|rows| - 1] else prefix
  }

  /**
   The pass finishes exactly when no row aborts; its output is then the kept
   rows' records, in input order: the j-th record comes from the j-th kept row.
   */
  lemma {:induction false} CleanRowsOk(rows: seq<Row>, parse: Parser)
    ensures CleanRows(rows, parse).Ok? <==> forall i :: 0 <= i < |rows| ==> !CleanRow(rows[i], parse).Abort?
    ensures CleanRows(rows, parse).Ok? ==>
      var out, idx := CleanRows(rows, parse).records, KeptIndices(rows, parse);
      |out| == |idx| && forall j :: 0 <= j < |out| ==> out[j] == CleanRow(rows[idx[j]], parse).cells
  {
    if rows != [] {
      var n := |rows| - 1;
      var prefix := rows[..n];
      CleanRowsOk(prefix, parse);
      assert forall i :: 0 <= i < n ==> prefix[i] == rows[i];
    }
  }

  /**
   The pass fails with `e` exactly when some row aborts with `e` and no row
   before it aborts: rows are handled in order and the first exception ends it.
   */
  lemma {:induction false} CleanRowsErr(rows: seq<Row>, parse: Parser, e: Error)
    ensures CleanRows(rows, parse) == Err(e) <==>
      exists i :: 0 <= i < |rows| && CleanRow(rows[i], parse) == Abort(e) &&
        forall h :: 0 <= h < i ==> !CleanRow(rows[h], parse).Abort?
  {
    if rows != [] {
      var n := |rows| - 1;
      var prefix := rows[..n];
      CleanRowsErr(prefix, parse, e);
      CleanRowsOk(prefix, parse);
      assert forall i :: 0 <= i < n ==> prefix[i] == rows[i];
      if CleanRows(rows, parse) == Err(e) {
        if CleanRows(prefix, parse).Err? {
          var i :| 0 <= i < n && CleanRow(prefix[i], parse) == Abort(e) &&
            (forall h :: 0 <= h < i ==> !CleanRow(prefix[h], parse).Abort?);
          assert CleanRow(rows[i], parse) == Abort(e);
        } else {
          assert CleanRow(rows[n], parse) == Abort(e);
        }
      }
    }
  }

  /**
   When the pass finishes, a row is dropped exactly when one of its float
   columns is `"null"`, and the output has one record fewer than the input
   for each such row.
   */
  lemma {:induction false} DroppedRowsAreNullRows(rows: seq<Row>, parse: Parser)
    requires CleanRows(rows, parse).Ok?
    ensures forall i :: 0 <= i < |rows| ==> (CleanRow(rows[i], parse).Kept? <==> !HasNullFloat(rows[i]))
    ensures |CleanRows(rows, parse).records| == |rows| - CountWithNull(rows)
  {
    CleanRowsOk(rows, parse);
    forall i | 0 <= i < |rows|
      ensures CleanRow(rows[i], parse).Kept? <==> !HasNullFloat(rows[i])
    {
      CleanRowKeptUnlessNull(rows[i], parse);
    }
    if rows != [] {
      var n := |rows| - 1;
      var prefix := rows[..n];
      assert CleanRows(prefix, parse).Ok?;
      DroppedRowsAreNullRows(prefix, parse);
    }
  }

  /** A record has the schema's shape: three strings, then two numbers. */
  predicate HasSchemaShape(r: Record)
  {
    |r| == |Schema| && r[0].Text? && r[1].Text? && r[2].Text? && r[3].Number? && r[4].Number?
  }

  /** Every record of a finished pass has the schema's shape. */
  lemma RecordsHaveSchemaShape(rows: seq<Row>, parse: Parser)
    requires CleanRows(rows, parse).Ok?
    ensures forall r :: r in CleanRows(rows, parse).records ==> HasSchemaShape(r)
  {
    CleanRowsOk(rows, parse);
    var out, idx := CleanRows(rows, parse).records, KeptIndices(rows, parse);
    forall j | 0 <= j < |out|
      ensures HasSchemaShape(out[j])
    {
      CleanRowKept(rows[idx[j]], parse);
    }
  }

  /**
   A row that has an issue date but no `cusip` raises a KeyError for `cusip`:
   string columns are looked up without a default.
   */
  lemma MissingCusipAborts(row: Row, parse: Parser)
    requires "issue_date" in row && "cusip" !in row
    ensures CleanRow(row, parse) == Abort(KeyError("cusip"))
  {
    assert StopsAt(row, Schema, 1, parse);
    WalkStops(row, Schema, 1, parse);
  }

  /** The first such row ends the whole pass with that KeyError when no earlier row has raised. */
  lemma MissingCusipEndsPass(rows: seq<Row>, i: int, parse: Parser)
    requires 0 <= i < |rows| && "issue_date" in rows[i] && "cusip" !in rows[i]
    requires forall h :: 0 <= h < i ==> !CleanRow(rows[h], parse).Abort?
    ensures CleanRows(rows, parse) == Err(KeyError("cusip"))
  {
    MissingCusipAborts(rows[i], parse);
    CleanRowsErr(rows, parse, KeyError("cusip"));
  }
}
