/** internal/xlsxparser: turns the first sheet of a workbook into product
    updates. Whole-sheet checks run first and abort the parse; after them
    every row is parsed field by field, each failing field is reported with
    the row's 1-based number, and only rows without any error are emitted. */
module XlsxParser {
  import opened GoStd
  import opened Excel
  import opened Models

  /** The parse errors that abort the whole sheet. `SheetReadError` is an
      error of the spreadsheet library's GetRows or GetCols, returned as is. */
  datatype ParseFailure =
    | ErrFailedToRead
    | ErrEmptyDoc
    | ErrEmptySheet
    | ErrInvalidIDs
    | ErrHasDuplicates
    | SheetReadError(access: SheetAccess)

  /** ErrProductParsing: one failing field of one row. */
  datatype RowError = ErrProductParsing(row: nat, field: Field, errMsg: Message)

  /** ParseProducts' three results: the updates and the row errors (None is
      Go's nil slice), or a fatal error with nil updates and nil row errors. */
  datatype ParseOutcome =
    | Parsed(updates: seq<ProductUpdate>, rowErrors: Option<seq<RowError>>)
    | Failed(err: ParseFailure)

  // ---------------------------------------------------------------------
  // hasDuplicates

  ghost predicate Duplicated<T>(s: seq<T>)
  {
    exists i, j :: 0 <= i < j < |s| && s[i] == s[j]
  }

  /** hasDuplicates: scans s, remembering what it has seen, and stops at the
      first element seen before. */
  method HasDuplicates<T(==)>(s: seq<T>) returns (dup: bool)
    ensures dup <==> Duplicated(s)
  {
    var seen: set<T> := {};
    for k := 0 to |s|
      invariant seen == set i | 0 <= i < k :: s[i]
      invariant forall i, j :: 0 <= i < j < k ==> s[i] != s[j]
    {
      if s[k] in seen {
        return true;
      }
      seen := seen + {s[k]};
    }
    return false;
  }

  // ---------------------------------------------------------------------
  // prepare

  predicate IdsParse(col: seq<string>)
  {
    forall i :: 0 <= i < |col| ==> ParseUint(col[i]).Ok?
  }

  /** The numbers of an all-numeric id column. */
  function ColumnIds(col: seq<string>): (ids: seq<nat>)
    requires IdsParse(col)
    ensures |ids| == |col| && forall i :: 0 <= i < |col| ==> ids[i] == ParseUint(col[i]).value
  {
    if col == [] then [] else ColumnIds(col[..|col| - 1]) + [ParseUint(col[|col| - 1]).value]
  }

  /** The loop of prepare over the id column: the ids, or None at the
      first cell that is not a uint64. */
  method ParseIds(col: seq<string>) returns (r: Option<seq<nat>>)
    ensures r.Some? <==> IdsParse(col)
    ensures r.Some? ==> r.value == ColumnIds(col)
  {
    var offerIds: seq<nat> := [];
    for i := 0 to |col|
      invariant IdsParse(col[..i])
      invariant offerIds == ColumnIds(col[..i])
    {
      var u := ParseUint(col[i]);
      if u.Err? {
        return None;
      }
      assert col[..i + 1][..i] == col[..i];
      offerIds := offerIds + [u.value];
    }
    assert col[..|col|] == col;
    return Some(offerIds);
  }

  /** What prepare decides about a workbook, check by check in its order. */
  ghost function Prepared(sheets: seq<Sheet>, access: SheetAccess): Result<Sheet, ParseFailure>
  {
    if |sheets| == 0 then Err(ErrEmptyDoc)
    else if access == GetRowsFails then Err(SheetReadError(GetRowsFails))
    else if |sheets[0]| == 0 then Err(ErrEmptySheet)
    else if access == GetColsFails then Err(SheetReadError(GetColsFails))
    else if !IdsParse(FirstColumn(sheets[0])) then Err(ErrInvalidIDs)
    else if Duplicated(ColumnIds(FirstColumn(sheets[0]))) then Err(ErrHasDuplicates)
    else Ok(sheets[0])
  }

  /** prepare: the sheet checks, in order: no sheets, the rows cannot be
      read, no rows, the columns cannot be read, an id that is not a uint64,
      a repeated id. On success it hands back the first sheet's rows. */
  method Prepare(sheets: seq<Sheet>, access: SheetAccess) returns (r: Result<Sheet, ParseFailure>)
    ensures r == Prepared(sheets, access)
    ensures r.Ok? ==> |sheets| > 0 && r.value == sheets[0] && |r.value| > 0
    ensures r.Ok? ==> IdsParse(FirstColumn(r.value)) && !Duplicated(ColumnIds(FirstColumn(r.value)))
  {
    if |sheets| == 0 {
      return Err(ErrEmptyDoc);
    }
    if access == GetRowsFails {
      return Err(SheetReadError(GetRowsFails));
    }
    var rows := sheets[0];
    if |rows| == 0 {
      return Err(ErrEmptySheet);
    }
    if access == GetColsFails {
      return Err(SheetReadError(GetColsFails));
    }
    var col := FirstColumn(rows);
    var ids := ParseIds(col);
    if ids.None? {
      return Err(ErrInvalidIDs);
    }
    var offerIds := ids.value;
    var dup := HasDuplicates(offerIds);
    if dup {
      return Err(ErrHasDuplicates);
    }
    return Ok(rows);
  }

  // ---------------------------------------------------------------------
  // One row

  /** What the loop body reads from a row's five cells: the three uint
      parses, the trimmed name and the bool parse. */
  datatype Cells = Cells(
    offerId: Result<nat, NumError>,
    name: string,
    price: Result<nat, NumError>,
    quantity: Result<nat, NumError>,
    available: Result<bool, NumError>)
  {
    /** The four typed fields parse and the trimmed name passes validation. */
    predicate Valid()
    {
      && offerId.Ok? && price.Ok? && quantity.Ok? && available.Ok?
      && |name| <= MaxNameRunes
    }

    /** The product the cells describe; a field that does not parse holds
        the value strconv returns beside its error. */
    function Update(): ProductUpdate
    {
      ProductUpdate(
        Product(UintValue(offerId), name, UintValue(price), UintValue(quantity)),
        BoolValue(available))
    }
  }

  function ReadCells(row: Row): Cells
    requires |row| >= 5
  {
    Cells(ParseUint(row[0]), TrimSpace(row[1]), ParseUint(row[2]), ParseUint(row[3]),
          ParseBool(row[4]))
  }

  /** The column order in which a row's errors are reported. */
  function Rank(f: Field): nat
  {
    match f
    case OfferIdField => 0
    case PriceField => 1
    case QuantityField => 2
    case AvailableField => 3
    case NameField => 4
  }

  /** The error a parse of column `f` contributes to row n, if any. */
  function ParseErrors<T>(n: nat, f: Field, r: Result<T, NumError>): (errs: seq<RowError>)
    ensures |errs| <= 1 && (errs == [] <==> r.Ok?)
    ensures forall e :: e in errs ==> e == ErrProductParsing(n, f, StrconvMessage(r.error))
  {
    if r.Err? then [ErrProductParsing(n, f, StrconvMessage(r.error))] else []
  }

  /** The error validation contributes to row n, if any. */
  function ValidationErrors(n: nat, p: Product): (errs: seq<RowError>)
    ensures |errs| <= 1 && (errs == [] <==> |p.name| <= MaxNameRunes)
    ensures forall e :: e in errs ==> e == ErrProductParsing(n, NameField, TooLongName)
  {
    var v := Validate(p);
    if v.Some? then [ErrProductParsing(n, v.value.field, v.value.errMsg)] else []
  }

  /** The errors the cells of row n give, in the order offer_id, price,
      quantity, available, then the name validation; none at all exactly
      when the cells are valid. */
  function CellErrors(n: nat, c: Cells): (errs: seq<RowError>)
    ensures forall e :: e in errs ==> e.row == n
    ensures errs == [] <==> c.Valid()
  {
    CellErrorsParts(n, c);
    ChecksErrors(n, c, 5)
  }

  /** Every rank in errs is below k, and the ranks strictly increase. */
  predicate RankedBelow(errs: seq<RowError>, k: nat)
  {
    && (forall i :: 0 <= i < |errs| ==> Rank(errs[i].field) < k)
    && (forall i, j :: 0 <= i < j < |errs| ==> Rank(errs[i].field) < Rank(errs[j].field))
  }

  lemma AppendRanked(xs: seq<RowError>, ys: seq<RowError>, k: nat)
    requires RankedBelow(xs, k)
    requires |ys| <= 1 && (ys != [] ==> Rank(ys[0].field) == k)
    ensures RankedBelow(xs + ys, k + 1)
  {
  }

  /** The errors of the k-th check of a row, in reporting order. */
  function CheckErrors(n: nat, c: Cells, k: nat): (errs: seq<RowError>)
    requires k < 5
    ensures |errs| <= 1 && (errs != [] ==> Rank(errs[0].field) == k)
  {
    match k
    case 0 => ParseErrors(n, OfferIdField, c.offerId)
    case 1 => ParseErrors(n, PriceField, c.price)
    case 2 => ParseErrors(n, QuantityField, c.quantity)
    case 3 => ParseErrors(n, AvailableField, c.available)
    case _ => ValidationErrors(n, c.Update().product)
  }

  /** The errors of the first k checks of a row. */
  function ChecksErrors(n: nat, c: Cells, k: nat): seq<RowError>
    requires k <= 5
  {
    if k == 0 then [] else ChecksErrors(n, c, k - 1) + CheckErrors(n, c, k - 1)
  }

  lemma {:induction false} ChecksOrdered(n: nat, c: Cells, k: nat)
    requires k <= 5
    ensures RankedBelow(ChecksErrors(n, c, k), k)
  {
    if k > 0 {
      ChecksOrdered(n, c, k - 1);
      AppendRanked(ChecksErrors(n, c, k - 1), CheckErrors(n, c, k - 1), k - 1);
    }
  }

  /** The five checks in full: offer_id, price, quantity, available, then
      the name validation. */
  lemma CellErrorsParts(n: nat, c: Cells)
    ensures ChecksErrors(n, c, 5) ==
            ParseErrors(n, OfferIdField, c.offerId) + ParseErrors(n, PriceField, c.price)
            + ParseErrors(n, QuantityField, c.quantity) + ParseErrors(n, AvailableField, c.available)
            + ValidationErrors(n, c.Update().product)
  {
    var a := CheckErrors(n, c, 0);
    assert ChecksErrors(n, c, 1) == [] + a;
    assert [] + a == a;
    assert ChecksErrors(n, c, 2) == a + CheckErrors(n, c, 1);
    assert ChecksErrors(n, c, 3) == ChecksErrors(n, c, 2) + CheckErrors(n, c, 2);
    assert ChecksErrors(n, c, 4) == ChecksErrors(n, c, 3) + CheckErrors(n, c, 3);
    assert ChecksErrors(n, c, 5) == ChecksErrors(n, c, 4) + CheckErrors(n, c, 4);
  }

  /** A row's errors name each field at most once, in the order offer_id,
      price, quantity, available, name. */
  lemma CellErrorsOrdered(n: nat, c: Cells)
    ensures RankedBelow(CellErrors(n, c), 5)
  {
    ChecksOrdered(n, c, 5);
  }

  /** The cells give an error naming a field exactly when that field fails:
      a uint that does not parse, an available cell that is not a boolean
      literal, a name over 100 runes; a parse error carries strconv's error
      and a name error the message "too long name". */
  lemma {:induction false} CellErrorFields(n: nat, c: Cells, e: RowError)
    ensures e in CellErrors(n, c) <==>
            match e.field
            case OfferIdField => c.offerId.Err? && e == ErrProductParsing(n, OfferIdField, StrconvMessage(c.offerId.error))
            case PriceField => c.price.Err? && e == ErrProductParsing(n, PriceField, StrconvMessage(c.price.error))
            case QuantityField => c.quantity.Err? && e == ErrProductParsing(n, QuantityField, StrconvMessage(c.quantity.error))
            case AvailableField => c.available.Err? && e == ErrProductParsing(n, AvailableField, StrconvMessage(c.available.error))
            case NameField => |c.name| > MaxNameRunes && e == ErrProductParsing(n, NameField, TooLongName)
  {
    var a := ParseErrors(n, OfferIdField, c.offerId);
    var b := ParseErrors(n, PriceField, c.price);
    var q := ParseErrors(n, QuantityField, c.quantity);
    var d := ParseErrors(n, AvailableField, c.available);
    var v := ValidationErrors(n, c.Update().product);
    CellErrorsParts(n, c);
    assert CellErrors(n, c) == a + b + q + d + v;
    assert e in CellErrors(n, c) <==> e in a || e in b || e in q || e in d || e in v;
    if a != [] { assert a[0] in a; }
    if b != [] { assert b[0] in b; }
    if q != [] { assert q[0] in q; }
    if d != [] { assert d[0] in d; }
    if v != [] { assert v[0] in v; }
  }

  /** The loop body of ParseProducts for one row: each failing field appends
      its error and clears `isValid`; a row that stays valid is emitted. */
  method ParseRow(rowNumber: nat, row: Row) returns (update: Option<ProductUpdate>, errs: seq<RowError>)
    requires |row| >= 5
    ensures errs == CellErrors(rowNumber + 1, ReadCells(row))
    ensures update == if ReadCells(row).Valid() then Some(ReadCells(row).Update()) else None
  {
    var n := rowNumber + 1;
    var isValid := true;
    errs := [];

    var offerId := ParseUint(row[0]);
    if offerId.Err? {
      isValid := false;
      errs := errs + [ErrProductParsing(n, OfferIdField, StrconvMessage(offerId.error))];
    }
    assert errs == ParseErrors(n, OfferIdField, offerId);
    var name := TrimSpace(row[1]);
    var price := ParseUint(row[2]);
    if price.Err? {
      isValid := false;
      errs := errs + [ErrProductParsing(n, PriceField, StrconvMessage(price.error))];
    }
    assert errs == ParseErrors(n, OfferIdField, offerId) + ParseErrors(n, PriceField, price);
    var quantity := ParseUint(row[3]);
    if quantity.Err? {
      isValid := false;
      errs := errs + [ErrProductParsing(n, QuantityField, StrconvMessage(quantity.error))];
    }
    assert errs == ParseErrors(n, OfferIdField, offerId) + ParseErrors(n, PriceField, price)
                   + ParseErrors(n, QuantityField, quantity);
    var available := ParseBool(row[4]);
    if available.Err? {
      isValid := false;
      errs := errs + [ErrProductParsing(n, AvailableField, StrconvMessage(available.error))];
    }
    ghost var cells := Cells(offerId, name, price, quantity, available);
    assert cells == ReadCells(row);
    assert isValid == (offerId.Ok? && price.Ok? && quantity.Ok? && available.Ok?);
    assert errs == ParseErrors(n, OfferIdField, offerId) + ParseErrors(n, PriceField, price)
                   + ParseErrors(n, QuantityField, quantity) + ParseErrors(n, AvailableField, available);
    var product := Product(UintValue(offerId), name, UintValue(price), UintValue(quantity));
    assert product == cells.Update().product;
    var invalid := Validate(product);
    if invalid.Some? {
      isValid := false;
      errs := errs + [ErrProductParsing(n, invalid.value.field, invalid.value.errMsg)];
    }
    update := if isValid then Some(ProductUpdate(product, BoolValue(available))) else None;
    CellErrorsParts(n, cells);
  }

  // ---------------------------------------------------------------------
  // The sheet

  /** Every row has the five cells the loop body indexes. */
  predicate RowsHaveFiveCells(rows: Sheet)
  {
    forall i :: 0 <= i < |rows| ==> |rows[i]| >= 5
  }

  /** What the loop body reads from each row, in sheet order. */
  function ReadSheet(rows: Sheet): (cells: seq<Cells>)
    requires RowsHaveFiveCells(rows)
    ensures |cells| == |rows| && forall i :: 0 <= i < |rows| ==> cells[i] == ReadCells(rows[i])
  {
    if rows == [] then [] else ReadSheet(rows[..|rows| - 1]) + [ReadCells(rows[|rows| - 1])]
  }

  /** The updates of the valid rows, in sheet order. */
  function Emitted(cells: seq<Cells>): seq<ProductUpdate>
  {
    if cells == [] then []
    else
      var last := cells[|cells| - 1];
      Emitted(cells[..|cells| - 1]) + (if last.Valid() then [last.Update()] else [])
  }

  /** The errors of all rows, row after row, numbered from 1. */
  function Reported(cells: seq<Cells>): seq<RowError>
  {
    if cells == [] then []
    else Reported(cells[..|cells| - 1]) + CellErrors(|cells|, cells[|cells| - 1])
  }

  /** Parsing one more row appends its update when it is valid. */
  lemma EmittedStep(cells: seq<Cells>, k: nat)
    requires k < |cells|
    ensures Emitted(cells[..k + 1]) ==
            Emitted(cells[..k]) + (if cells[k].Valid() then [cells[k].Update()] else [])
  {
    assert cells[..k + 1][..k] == cells[..k];
  }

  /** Parsing one more row appends its errors. */
  lemma ReportedStep(cells: seq<Cells>, k: nat)
    requires k < |cells|
    ensures Reported(cells[..k + 1]) == Reported(cells[..k]) + CellErrors(k + 1, cells[k])
  {
    assert cells[..k + 1][..k] == cells[..k];
  }

  /** The row loop stays inside every row it reads: a sheet that prepare
      accepts has five cells in each row. A sheet that prepare rejects may
      have rows of any length, since prepare reads only the first column. */
  ghost predicate RowLoopInBounds(doc: Document)
  {
    doc.Workbook? && Prepared(doc.sheets, doc.access).Ok? ==> RowsHaveFiveCells(doc.sheets[0])
  }

  /** ParseProducts as a function of the document. */
  ghost function Parse(doc: Document): ParseOutcome
    requires RowLoopInBounds(doc)
  {
    if doc.Unreadable? then Failed(ErrFailedToRead)
    else match Prepared(doc.sheets, doc.access)
      case Err(e) => Failed(e)
      case Ok(rows) =>
        var cells := ReadSheet(rows);
        var errs := Reported(cells);
        Parsed(Emitted(cells), if errs == [] then None else Some(errs))
  }

  /** The row loop of ParseProducts: the valid rows' updates and every row's
      field errors, in sheet order. */
  method ParseRows(rows: Sheet) returns (updates: seq<ProductUpdate>, errs: seq<RowError>)
    requires RowsHaveFiveCells(rows)
    ensures updates == Emitted(ReadSheet(rows)) && errs == Reported(ReadSheet(rows))
  {
    ghost var cells := ReadSheet(rows);
    updates, errs := [], [];
    for rowNumber := 0 to |rows|
      invariant updates == Emitted(cells[..rowNumber])
      invariant errs == Reported(cells[..rowNumber])
    {
      var update, rowErrs := ParseRow(rowNumber, rows[rowNumber]);
      EmittedStep(cells, rowNumber);
      ReportedStep(cells, rowNumber);
      errs := errs + rowErrs;
      if update.Some? {
        updates := updates + [update.value];
      }
    }
    assert cells[..|rows|] == cells;
  }

  /** ParseProducts: the sheet checks, then the row loop; an empty error
      list is returned as nil. */
  method ParseProducts(doc: Document) returns (out: ParseOutcome)
    requires RowLoopInBounds(doc)
    ensures out == Parse(doc)
  {
    if doc.Unreadable? {
      return Failed(ErrFailedToRead);
    }
    var prepared := Prepare(doc.sheets, doc.access);
    if prepared.Err? {
      return Failed(prepared.error);
    }
    var updates, errs := ParseRows(prepared.value);
    if |errs| == 0 {
      return Parsed(updates, None);
    }
    return Parsed(updates, Some(errs));
  }

  // ---------------------------------------------------------------------
  // What the parse promises

  /** A row's update is emitted exactly when the row is valid, and every
      emitted update is the update of a valid row. */
  lemma {:induction false} EmittedRows(cells: seq<Cells>)
    ensures forall i :: 0 <= i < |cells| && cells[i].Valid() ==> cells[i].Update() in Emitted(cells)
    ensures forall u :: u in Emitted(cells) ==>
              exists i :: 0 <= i < |cells| && cells[i].Valid() && u == cells[i].Update()
    ensures |Emitted(cells)| <= |cells|
  {
    if cells != [] {
      var k := |cells| - 1;
      EmittedStep(cells, k);
      EmittedRows(cells[..k]);
    }
  }

  /** When every row is valid, the updates are the rows' updates, one per
      row and in sheet order. */
  lemma {:induction false} EmittedAllValid(cells: seq<Cells>)
    requires forall i :: 0 <= i < |cells| ==> cells[i].Valid()
    ensures |Emitted(cells)| == |cells|
    ensures forall i :: 0 <= i < |cells| ==> Emitted(cells)[i] == cells[i].Update()
  {
    if cells != [] {
      var k := |cells| - 1;
      EmittedStep(cells, k);
      EmittedAllValid(cells[..k]);
    }
  }

  /** The reported errors are exactly the errors of the rows. */
  lemma {:induction false} ReportedRows(cells: seq<Cells>)
    ensures forall e :: e in Reported(cells) <==>
              exists i :: 0 <= i < |cells| && e in CellErrors(i + 1, cells[i])
  {
    if cells != [] {
      var k := |cells| - 1;
      ReportedStep(cells, k);
      ReportedRows(cells[..k]);
      assert cells[..k + 1] == cells;
      var prev, last := Reported(cells[..k]), CellErrors(k + 1, cells[k]);
      forall e | e in prev + last
        ensures exists i :: 0 <= i < |cells| && e in CellErrors(i + 1, cells[i])
      {
        if e in prev {
          var i :| 0 <= i < k && e in CellErrors(i + 1, cells[..k][i]);
          assert cells[..k][i] == cells[i];
        } else {
          assert e in CellErrors(k + 1, cells[k]);
        }
      }
      forall e, i | 0 <= i < |cells| && e in CellErrors(i + 1, cells[i])
        ensures e in prev + last
      {
        if i < k {
          assert cells[..k][i] == cells[i];
          assert e in prev;
        }
      }
    }
  }

  /** Every reported error names a row between 1 and the number of rows. */
  lemma ReportedInRange(cells: seq<Cells>)
    ensures forall e :: e in Reported(cells) ==> 1 <= e.row <= |cells|
  {
    ReportedRows(cells);
  }

  /** The errors are grouped row after row: their row numbers never
      decrease. */
  lemma {:induction false} ReportedAscending(cells: seq<Cells>)
    ensures forall i, j :: 0 <= i < j < |Reported(cells)| ==>
              Reported(cells)[i].row <= Reported(cells)[j].row
  {
    if cells != [] {
      var k := |cells| - 1;
      ReportedStep(cells, k);
      ReportedAscending(cells[..k]);
      ReportedInRange(cells[..k]);
      assert cells[..k + 1] == cells;
      var prev: seq<RowError>, last: seq<RowError> := Reported(cells[..k]), CellErrors(k + 1, cells[k]);
      forall i, j | 0 <= i < j < |prev + last|
        ensures (prev + last)[i].row <= (prev + last)[j].row
      {
        if j >= |prev| {
          assert (prev + last)[j] in last;
          if i < |prev| {
            assert (prev + last)[i] in prev;
          } else {
            assert (prev + last)[i] in last;
          }
        }
      }
    }
  }

  /** The rows' offer ids parse and are distinct. */
  predicate DistinctIds(cells: seq<Cells>)
  {
    && (forall i :: 0 <= i < |cells| ==> cells[i].offerId.Ok?)
    && (forall i, j :: 0 <= i < j < |cells| ==> cells[i].offerId != cells[j].offerId)
  }

  /** Once prepare has accepted a sheet, its offer id cells are distinct
      numbers. */
  lemma PreparedIds(sheets: seq<Sheet>, access: SheetAccess)
    requires Prepared(sheets, access).Ok? && RowsHaveFiveCells(sheets[0])
    ensures DistinctIds(ReadSheet(sheets[0]))
  {
    var rows := sheets[0];
    var col := FirstColumn(rows);
    var ids := ColumnIds(col);
    var cells := ReadSheet(rows);
    forall i | 0 <= i < |rows|
      ensures cells[i].offerId == Ok(ids[i])
    {
      assert col[i] == rows[i][0];
    }
    forall i, j | 0 <= i < j < |rows|
      ensures cells[i].offerId != cells[j].offerId
    {
      assert ids[i] != ids[j];
    }
  }

  /** Distinct offer ids in the rows give updates with distinct offer ids. */
  lemma {:induction false} EmittedDistinct(cells: seq<Cells>)
    requires DistinctIds(cells)
    ensures forall i, j :: 0 <= i < j < |Emitted(cells)| ==>
              Emitted(cells)[i].product.offerId != Emitted(cells)[j].product.offerId
  {
    if cells != [] {
      var k := |cells| - 1;
      var prefix := cells[..k];
      EmittedStep(cells, k);
      assert DistinctIds(prefix);
      EmittedDistinct(prefix);
      EmittedRows(prefix);
      if cells[k].Valid() {
        var prev := Emitted(prefix);
        var u := cells[k].Update();
        forall i | 0 <= i < |prev|
          ensures prev[i].product.offerId != u.product.offerId
        {
          assert prev[i] in prev;
          var w :| 0 <= w < |prefix| && prefix[w].Valid() && prev[i] == prefix[w].Update();
          assert cells[w].offerId != cells[k].offerId;
        }
      }
    }
  }

  /** The row loop over cells with distinct parsed offer ids emits
      updates with distinct offer ids and reports no offer_id error; every
      error names a row of the sheet. */
  lemma SheetGuarantees(cells: seq<Cells>)
    requires DistinctIds(cells)
    ensures forall i, j :: 0 <= i < j < |Emitted(cells)| ==>
              Emitted(cells)[i].product.offerId != Emitted(cells)[j].product.offerId
    ensures forall e :: e in Reported(cells) ==> e.field != OfferIdField && 1 <= e.row <= |cells|
  {
    EmittedDistinct(cells);
    ReportedRows(cells);
    ReportedInRange(cells);
    forall e | e in Reported(cells)
      ensures e.field != OfferIdField
    {
      var i :| 0 <= i < |cells| && e in CellErrors(i + 1, cells[i]);
      CellErrorFields(i + 1, cells[i], e);
    }
  }

  /** Only a workbook that prepare accepts is parsed. */
  lemma ParsedWasPrepared(doc: Document)
    requires RowLoopInBounds(doc) && Parse(doc).Parsed?
    ensures doc.Workbook? && Prepared(doc.sheets, doc.access).Ok?
    ensures RowsHaveFiveCells(doc.sheets[0])
  {
  }

  /** An accepted workbook is parsed into the updates and the errors of its
      first sheet's rows. */
  lemma ParsedSheet(doc: Document)
    requires doc.Workbook? && Prepared(doc.sheets, doc.access).Ok? && RowsHaveFiveCells(doc.sheets[0])
    ensures var errs := Reported(ReadSheet(doc.sheets[0]));
            Parse(doc) == Parsed(Emitted(ReadSheet(doc.sheets[0])), if errs == [] then None else Some(errs))
  {
    assert Prepared(doc.sheets, doc.access) == Ok(doc.sheets[0]);
  }

  /** A parsed sheet reports no offer_id errors (prepare has checked that
      column), its updates have distinct offer ids, and every error names a
      row of the sheet. */
  lemma ParseGuarantees(doc: Document)
    requires RowLoopInBounds(doc)
    requires Parse(doc).Parsed?
    ensures var out := Parse(doc);
            forall i, j :: 0 <= i < j < |out.updates| ==>
              out.updates[i].product.offerId != out.updates[j].product.offerId
    ensures var out := Parse(doc);
            out.rowErrors.Some? ==>
              && |out.rowErrors.value| > 0
              && forall e :: e in out.rowErrors.value ==>
                   && e.field != OfferIdField
                   && 1 <= e.row <= |doc.sheets[0]|
  {
    ParsedWasPrepared(doc);
    var cells := ReadSheet(doc.sheets[0]);
    PreparedIds(doc.sheets, doc.access);
    ParsedSheet(doc);
    SheetGuarantees(cells);
  }
}
