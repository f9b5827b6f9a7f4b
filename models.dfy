/** The workbook as the spreadsheet library hands it to the parsers: sheets of
    rows of cell strings. Opening the stream and reading a sheet's rows or
    columns can fail inside the library; those failures are inputs here. */
module Excel {

  type Row = seq<string>
  type Sheet = seq<Row>

  /** Which of the library's sheet reads fails, if any. */
  datatype SheetAccess = AccessOk | GetRowsFails | GetColsFails

  /** The stream either cannot be opened as a workbook, or it holds `sheets`
      and the first sheet's rows and columns are read with `access`. */
  datatype Document =
    | Unreadable
    | Workbook(sheets: seq<Sheet>, access: SheetAccess)

  /** The first cell of a row, blank when the row has no cells. */
  function FirstCell(row: Row): string
  {
    if |row| > 0 then row[0] else ""
  }

  /** The first column of a sheet, as GetCols returns it: one cell per row,
      blank for a row without cells. */
  function FirstColumn(rows: Sheet): (col: seq<string>)
    ensures |col| == |rows|
    ensures forall i :: 0 <= i < |rows| ==> col[i] == FirstCell(rows[i])
  {
    if rows == [] then [] else FirstColumn(rows[..|rows| - 1]) + [FirstCell(rows[|rows| - 1])]
  }
}

/** internal/models: the product records and the domain validation. */
module Models {
  import opened GoStd

  /** A name may have at most this many runes. */
  const MaxNameRunes: nat := 100

  datatype Product = Product(offerId: nat, name: string, price: nat, quantity: nat)

  /** A product row of the sheet; `available == false` asks for deletion. */
  datatype ProductUpdate = ProductUpdate(product: Product, available: bool)

  /** The five sheet columns, used as the `field` of an error. */
  datatype Field = OfferIdField | NameField | PriceField | QuantityField | AvailableField
  {
    /** The column name reported in an error's `field`. */
    function Name(): string
    {
      match this
      case OfferIdField => "offer_id"
      case NameField => "name"
      case PriceField => "price"
      case QuantityField => "quantity"
      case AvailableField => "available"
    }
  }

  /** An error message: the text of a strconv error, or MsgTooLongName. */
  datatype Message = StrconvMessage(cause: NumError) | TooLongName
  {
    /** The text of the messages the domain defines itself. */
    function Text(): string
      requires TooLongName?
    {
      "too long name"
    }
  }

  /** models.ErrProductValidation. */
  datatype ValidationError = ErrProductValidation(offerId: nat, field: Field, errMsg: Message)

  /** Product.Validate: a name longer than 100 runes is rejected with field
      "name" and message "too long name"; no other field is checked. */
  function Validate(p: Product): (r: Option<ValidationError>)
    ensures r.None? <==> |p.name| <= MaxNameRunes
    ensures r.Some? ==> r.value == ErrProductValidation(p.offerId, NameField, TooLongName)
  {
    if |p.name| > MaxNameRunes then Some(ErrProductValidation(p.offerId, NameField, TooLongName))
    else None
  }

  /** Only the name decides validity: offer id, price and quantity never do. */
  lemma ValidateOnlyName(p: Product, offerId: nat, price: nat, quantity: nat)
    ensures Validate(p).None? == Validate(Product(offerId, p.name, price, quantity)).None?
  {
  }
}
