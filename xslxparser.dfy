/** internal/xslx-parser: the older revision of the sheet parser. It checks
    only that the workbook has a sheet and the sheet has rows, then parses
    row after row and gives up at the first cell that does not parse. It
    neither validates names nor looks for repeated offer ids. */
module XslxParser {
  import opened GoStd
  import opened Excel
  import opened Models
  import XlsxParser

  /** What the loop body reads from a row, shared with the newer parser. */
  type Cells = XlsxParser.Cells

  /** What the older ParseProducts can fail with: the library's open or
      GetRows error returned as is, its own two sentinels, or the first
      strconv error of a row. */
  datatype LegacyFailure =
    | OpenFailed
    | ErrEmptyDoc
    | ErrEmptySheet
    | RowsUnreadable
    | StrconvFailure(cause: NumError)

  /** One row: the first of offer_id, price, quantity, available that does
      not parse, or the row's update with its trimmed name. */
  function LegacyRow(c: Cells): Result<ProductUpdate, NumError>
  {
    if c.offerId.Err? then Err(c.offerId.error)
    else if c.price.Err? then Err(c.price.error)
    else if c.quantity.Err? then Err(c.quantity.error)
    else if c.available.Err? then Err(c.available.error)
    else Ok(c.Update())
  }

  /** The rows parsed in order, stopping at the first row that fails. */
  function LegacyRows(rows: seq<Cells>): Result<seq<ProductUpdate>, NumError>
  {
    if rows == [] then Ok([])
    else
      match LegacyRows(rows[..|rows| - 1])
      case Err(e) => Err(e)
      case Ok(updates) =>
        match LegacyRow(rows[|rows| - 1])
        case Err(e) => Err(e)
        case Ok(u) => Ok(updates + [u])
  }

  /** The row loop stays inside every row it reads: once the sheet checks
      pass, each row has the five cells the loop body indexes. */
  ghost predicate LegacyLoopInBounds(doc: Document)
  {
    doc.Workbook? && |doc.sheets| > 0 && doc.access != GetRowsFails ==>
      XlsxParser.RowsHaveFiveCells(doc.sheets[0])
  }

  /** The older ParseProducts as a function of the document. */
  ghost function LegacyParse(doc: Document): Result<seq<ProductUpdate>, LegacyFailure>
    requires LegacyLoopInBounds(doc)
  {
    if doc.Unreadable? then Err(OpenFailed)
    else if |doc.sheets| == 0 then Err(ErrEmptyDoc)
    else if doc.access == GetRowsFails then Err(RowsUnreadable)
    else if |doc.sheets[0]| == 0 then Err(ErrEmptySheet)
    else
      match LegacyRows(XlsxParser.ReadSheet(doc.sheets[0]))
      case Err(e) => Err(StrconvFailure(e))
      case Ok(updates) => Ok(updates)
  }

  /** Parsing one more row after a successful prefix. */
  lemma LegacyRowsStep(rows: seq<Cells>, k: nat)
    requires k < |rows|
    ensures LegacyRows(rows[..k + 1]) ==
            match LegacyRows(rows[..k])
            case Err(e) => Err(e)
            case Ok(updates) =>
              match LegacyRow(rows[k])
              case Err(e) => Err(e)
              case Ok(u) => Ok(updates + [u])
  {
    assert rows[..k + 1][..k] == rows[..k];
  }

  /** Once a prefix has failed, the whole sheet fails with the same error. */
  lemma {:induction false} LegacyErrorSticks(rows: seq<Cells>, k: nat)
    requires k <= |rows|
    requires LegacyRows(rows[..k]).Err?
    ensures LegacyRows(rows) == LegacyRows(rows[..k])
    decreases |rows| - k
  {
    if k == |rows| {
      assert rows[..k] == rows;
    } else {
      LegacyRowsStep(rows, k);
      LegacyErrorSticks(rows, k + 1);
    }
  }

  /** ParseProducts of the older revision: the two emptiness checks, then a
      loop that appends one update per row and returns at the first cell
      that does not parse. */
  method ParseProducts(doc: Document) returns (r: Result<seq<ProductUpdate>, LegacyFailure>)
    requires LegacyLoopInBounds(doc)
    ensures r == LegacyParse(doc)
  {
    if doc.Unreadable? {
      return Err(OpenFailed);
    }
    if |doc.sheets| == 0 {
      return Err(ErrEmptyDoc);
    }
    if doc.access == GetRowsFails {
      return Err(RowsUnreadable);
    }
    var rows := doc.sheets[0];
    if |rows| == 0 {
      return Err(ErrEmptySheet);
    }
    ghost var cells := XlsxParser.ReadSheet(rows);
    var productUpdates: seq<ProductUpdate> := [];
    for i := 0 to |rows|
      invariant LegacyRows(cells[..i]) == Ok(productUpdates)
    {
      var row := rows[i];
      LegacyRowsStep(cells, i);
      var offerId := ParseUint(row[0]);
      if offerId.Err? {
        LegacyErrorSticks(cells, i + 1);
        return Err(StrconvFailure(offerId.error));
      }
      var name := TrimSpace(row[1]);
      var price := ParseUint(row[2]);
      if price.Err? {
        LegacyErrorSticks(cells, i + 1);
        return Err(StrconvFailure(price.error));
      }
      var quantity := ParseUint(row[3]);
      if quantity.Err? {
        LegacyErrorSticks(cells, i + 1);
        return Err(StrconvFailure(quantity.error));
      }
      var available := ParseBool(row[4]);
      if available.Err? {
        LegacyErrorSticks(cells, i + 1);
        return Err(StrconvFailure(available.error));
      }
      assert cells[i] == XlsxParser.Cells(offerId, name, price, quantity, available);
      var product := Product(offerId.value, name, price.value, quantity.value);
      productUpdates := productUpdates + [ProductUpdate(product, available.value)];
    }
    assert cells[..|rows|] == cells;
    return Ok(productUpdates);
  }

  // ---------------------------------------------------------------------
  // What the older parse promises

  /** A row parses exactly when its four typed cells parse, whatever the
      length of its name; it then yields the update the newer parser emits
      for a valid row, trimmed name included. */
  lemma LegacyRowOk(row: Row)
    requires |row| >= 5
    ensures LegacyRow(XlsxParser.ReadCells(row)).Ok? <==>
            ParseUint(row[0]).Ok? && ParseUint(row[2]).Ok? && ParseUint(row[3]).Ok? && ParseBool(row[4]).Ok?
    ensures LegacyRow(XlsxParser.ReadCells(row)).Ok? ==>
            LegacyRow(XlsxParser.ReadCells(row)).value == ProductUpdate(
              Product(ParseUint(row[0]).value, TrimSpace(row[1]), ParseUint(row[2]).value, ParseUint(row[3]).value),
              ParseBool(row[4]).value)
  {
  }

  /** The sheet parses exactly when every row does, and then there is one
      update per row, in row order. */
  lemma {:induction false} LegacyRowsOk(rows: seq<Cells>)
    ensures LegacyRows(rows).Ok? <==> forall i :: 0 <= i < |rows| ==> LegacyRow(rows[i]).Ok?
    ensures LegacyRows(rows).Ok? ==>
              && |LegacyRows(rows).value| == |rows|
              && forall i :: 0 <= i < |rows| ==> LegacyRows(rows).value[i] == LegacyRow(rows[i]).value
  {
    if rows != [] {
      var k := |rows| - 1;
      LegacyRowsStep(rows, k);
      assert rows[..k + 1] == rows;
      LegacyRowsOk(rows[..k]);
      if LegacyRows(rows[..k]).Ok? && LegacyRow(rows[k]).Ok? {
        assert forall i :: 0 <= i < k ==> rows[..k][i] == rows[i];
      } else if LegacyRows(rows[..k]).Err? {
        var i :| 0 <= i < k && LegacyRow(rows[..k][i]).Err?;
        assert rows[..k][i] == rows[i];
      }
    }
  }

  /** A failing sheet fails with the error of its first failing row: every
      row before that one parses. */
  lemma {:induction false} LegacyRowsFirstError(rows: seq<Cells>)
    requires LegacyRows(rows).Err?
    ensures exists i :: 0 <= i < |rows| && LegacyRow(rows[i]) == Err(LegacyRows(rows).error) &&
              forall j :: 0 <= j < i ==> LegacyRow(rows[j]).Ok?
  {
    var k := |rows| - 1;
    LegacyRowsStep(rows, k);
    assert rows[..k + 1] == rows;
    if LegacyRows(rows[..k]).Err? {
      LegacyRowsFirstError(rows[..k]);
      var i :| 0 <= i < k && LegacyRow(rows[..k][i]) == Err(LegacyRows(rows[..k]).error) &&
               forall j :: 0 <= j < i ==> LegacyRow(rows[..k][j]).Ok?;
      assert forall j :: 0 <= j <= i ==> rows[..k][j] == rows[j];
    } else {
      LegacyRowsOk(rows[..k]);
      assert forall j :: 0 <= j < k ==> rows[..k][j] == rows[j];
    }
  }

  /** A row the newer parser accepts yields the same update in the older
      one; the older one also accepts rows with a name over 100 runes. */
  lemma NewerAcceptsFewer(c: Cells)
    ensures c.Valid() <==> LegacyRow(c).Ok? && |c.name| <= MaxNameRunes
    ensures c.Valid() ==> LegacyRow(c) == Ok(c.Update())
  {
  }
}
