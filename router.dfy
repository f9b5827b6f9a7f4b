/** internal/router: the two pieces of the HTTP handlers that hold logic.
    GetProducts turns the comma-separated seller_id and offer_id parameters
    into id lists for the filter; PostTableURL maps the parser's and the
    service's errors to a status and a message, and on success reports the
    service's errors followed by the parser's row errors. */
module Router {
  import opened GoStd
  import opened Excel
  import opened Models
  import opened Repository
  import opened Service
  import XlsxParser

  // ---------------------------------------------------------------------
  // GetProducts: id lists

  /** The values of the parts, in order, or the empty (nil) list as soon
      as one part is not a uint64. */
  function IdsOf(parts: seq<string>): seq<nat>
  {
    if parts == [] then []
    else
      var n := |parts| - 1;
      var prefix := IdsOf(parts[..n]);
      var last := ParseUint(parts[n]);
      if (n > 0 && prefix == []) || last.Err? then [] else prefix + [last.value]
  }

  /** The id list of one query parameter. */
  function IdList(param: string): seq<nat>
  {
    IdsOf(Split(param, ','))
  }

  lemma IdsOfStep(parts: seq<string>, i: nat)
    requires i < |parts|
    ensures var prefix := IdsOf(parts[..i]);
            var last := ParseUint(parts[i]);
            IdsOf(parts[..i + 1]) == if (i > 0 && prefix == []) || last.Err? then [] else prefix + [last.value]
  {
    assert parts[..i + 1][..i] == parts[..i];
  }

  /** The id list is non-empty exactly when every part parses, and then
      holds every part's value in order. */
  lemma {:induction false} IdsOfAll(parts: seq<string>)
    ensures IdsOf(parts) != [] <==> parts != [] && forall k :: 0 <= k < |parts| ==> ParseUint(parts[k]).Ok?
    ensures IdsOf(parts) != [] ==>
              |IdsOf(parts)| == |parts| && forall k :: 0 <= k < |parts| ==> IdsOf(parts)[k] == ParseUint(parts[k]).value
  {
    if parts != [] {
      var n := |parts| - 1;
      IdsOfAll(parts[..n]);
      assert forall k :: 0 <= k < n ==> parts[..n][k] == parts[k];
    }
  }

  /** An absent parameter reads as "", which splits to one empty part that
      does not parse: no ids, so no constraint. */
  lemma AbsentParamNoIds()
    ensures IdList("") == []
  {
    assert Split("", ',') == [""];
    assert ParseUint("").Err?;
  }

  /** The decimal forms of the ids joined with commas. */
  function Decimal(ids: seq<nat>): (parts: seq<string>)
    ensures |parts| == |ids| && forall k :: 0 <= k < |ids| ==> parts[k] == FormatUint(ids[k])
  {
    if ids == [] then [] else Decimal(ids[..|ids| - 1]) + [FormatUint(ids[|ids| - 1])]
  }

  /** A comma list of uint64s parses back to the same ids, in order. */
  lemma IdListRoundTrip(ids: seq<nat>)
    requires ids != [] && forall k :: 0 <= k < |ids| ==> ids[k] <= MaxUint64
    ensures IdList(Join(Decimal(ids), ',')) == ids
  {
    var parts := Decimal(ids);
    forall k | 0 <= k < |parts| ensures ',' !in parts[k] && ParseUint(parts[k]) == Ok(ids[k]) {
      ParseFormatUint(ids[k]);
      AllDigitsNoComma(parts[k]);
    }
    SplitJoin(parts, ',');
    IdsOfAll(parts);
  }

  lemma AllDigitsNoComma(s: string)
    requires AllDigits(s)
    ensures ',' !in s
  {
    forall k | 0 <= k < |s| ensures s[k] != ',' {
      assert IsDigit(s[k]);
    }
  }

  /** The loop of GetProducts over one parameter's parts: append each
      value, and reset the list to nil and stop at the first part that does
      not parse. */
  method ParseIdList(param: string) returns (ids: seq<nat>)
    ensures ids == IdList(param)
  {
    var parts := Split(param, ',');
    ids := [];
    var i := 0;
    while i < |parts|
      invariant 0 <= i <= |parts|
      invariant ids == IdsOf(parts[..i])
      invariant i > 0 ==> ids != []
    {
      IdsOfStep(parts, i);
      var u := ParseUint(parts[i]);
      if u.Err? {
        IdsOfFailed(parts, i + 1);
        return [];
      }
      ids := ids + [u.value];
      i := i + 1;
    }
    assert parts[..|parts|] == parts;
  }

  /** Once a prefix of at least one part yields no ids, the whole list
      yields none. */
  lemma {:induction false} IdsOfFailed(parts: seq<string>, i: nat)
    requires 0 < i <= |parts| && IdsOf(parts[..i]) == []
    ensures IdsOf(parts) == []
    decreases |parts| - i
  {
    if i == |parts| {
      assert parts[..i] == parts;
    } else {
      IdsOfStep(parts, i);
      IdsOfFailed(parts, i + 1);
    }
  }

  /** The filter GetProducts hands to the service: the two id lists and
      the substring exactly as received. */
  method RequestFilterOf(sellerParam: string, offerParam: string, substring: string) returns (f: RequestFilter)
    ensures f.sellerIds == IdList(sellerParam) && f.offerIds == IdList(offerParam)
    ensures f.substring == substring
  {
    var sellerIds := ParseIdList(sellerParam);
    var offerIds := ParseIdList(offerParam);
    f := RequestFilter(sellerIds, offerIds, substring);
  }

  // ---------------------------------------------------------------------
  // PostTableURL: the answer

  /** An entry of the reported error list: a refused product or an
      unparsable cell. */
  datatype ReportedError = Invalid(v: ValidationError) | Unparsable(e: XlsxParser.RowError)

  /** The body of the answer: a message, or the service's counts with the
      errors. */
  datatype Body =
    | Message(text: string)
    | Report(added: nat, updated: nat, deleted: nat, errors: seq<ReportedError>)

  datatype Response = Response(status: nat, body: Body)

  /** The answer to a parse that failed as a whole. A failure of the file
      itself is the client's fault (400); an error the spreadsheet library
      returns while reading rows or columns is the server's (500). */
  function FailureResponse(e: XlsxParser.ParseFailure): (r: Response)
    ensures r.status == 400 <==> !e.SheetReadError?
    ensures r.status == 500 <==> e.SheetReadError?
    ensures e.ErrEmptyDoc? || e.ErrEmptySheet? || e.ErrFailedToRead? <==> r.body == Message("bad xslx file")
    ensures e.ErrInvalidIDs? <==> r.body == Message("offer_id column has invalid value(s)")
    ensures e.ErrHasDuplicates? <==> r.body == Message("xslx file has duplicates")
  {
    match e
    case ErrEmptyDoc | ErrEmptySheet | ErrFailedToRead => Response(400, Message("bad xslx file"))
    case ErrInvalidIDs => Response(400, Message("offer_id column has invalid value(s)"))
    case ErrHasDuplicates => Response(400, Message("xslx file has duplicates"))
    case SheetReadError(_) => Response(500, Message("parsing error"))
  }

  /** The row errors, nil reading as none. */
  function RowErrorsOf(rowErrors: Option<seq<XlsxParser.RowError>>): seq<XlsxParser.RowError>
  {
    if rowErrors.None? then [] else rowErrors.value
  }

  /** The service's errors followed by the parser's row errors. */
  function Merged(svc: seq<ValidationError>, rows: seq<XlsxParser.RowError>): (m: seq<ReportedError>)
    ensures |m| == |svc| + |rows|
    ensures forall i :: 0 <= i < |svc| ==> m[i] == Invalid(svc[i])
    ensures forall j :: 0 <= j < |rows| ==> m[|svc| + j] == Unparsable(rows[j])
  {
    seq(|svc|, i requires 0 <= i < |svc| => Invalid(svc[i])) +
    seq(|rows|, j requires 0 <= j < |rows| => Unparsable(rows[j]))
  }

  /** The answer to a parse outcome: the failure's answer, a server error
      when the service fails, or the service's report with the row errors
      appended. */
  function Answer(t: Table, sellerId: nat, out: XlsxParser.ParseOutcome, existing: seq<nat>, fault: Fault)
    : Response
  {
    match out
    case Failed(e) => FailureResponse(e)
    case Parsed(updates, rowErrors) =>
      match Updated(t, sellerId, updates, existing, fault)
      case Err(_) => Response(500, Message("service error"))
      case Ok(res) => Response(200, Report(res.added, res.updated, res.deleted, Merged(res.errors, RowErrorsOf(rowErrors))))
  }

  /** The table after answering a parse outcome. */
  function AnswerTable(t: Table, sellerId: nat, out: XlsxParser.ParseOutcome, existing: seq<nat>, fault: Fault)
    : Table
  {
    match out
    case Failed(_) => t
    case Parsed(updates, _) => StoredAfter(t, sellerId, updates, existing, fault)
  }

  /** PostTableURL as a function of the table before the call. `download`
      is the downloaded table, or None when the URL cannot be fetched. */
  ghost function Posted(t: Table, sellerId: nat, download: Option<Document>, existing: seq<nat>, fault: Fault)
    : Response
    requires download.Some? ==> XlsxParser.RowLoopInBounds(download.value)
  {
    if download.None? then Response(400, Message("bad table url"))
    else Answer(t, sellerId, XlsxParser.Parse(download.value), existing, fault)
  }

  /** The table PostTableURL leaves. */
  ghost function PostedTable(t: Table, sellerId: nat, download: Option<Document>, existing: seq<nat>, fault: Fault)
    : Table
    requires download.Some? ==> XlsxParser.RowLoopInBounds(download.value)
  {
    if download.None? then t
    else AnswerTable(t, sellerId, XlsxParser.Parse(download.value), existing, fault)
  }

  /** PostTableURL after the body is decoded: download the table, parse
      it, hand the updates to the service, and answer. */
  method PostTableURL(svc: ProductService, sellerId: nat, download: Option<Document>, existing: seq<nat>,
                      fault: Fault) returns (resp: Response)
    requires svc.repo.Valid()
    requires download.Some? ==> XlsxParser.RowLoopInBounds(download.value)
    requires Sorted(existing) && forall id :: id in existing <==> Key(sellerId, id) in svc.repo.table
    modifies svc.repo
    ensures svc.repo.Valid()
    ensures resp == Posted(old(svc.repo.table), sellerId, download, existing, fault)
    ensures svc.repo.table == PostedTable(old(svc.repo.table), sellerId, download, existing, fault)
  {
    if download.None? {
      return Response(400, Message("bad table url"));
    }
    var parsed := XlsxParser.ParseProducts(download.value);
    if parsed.Failed? {
      return FailureResponse(parsed.err);
    }
    var ur := svc.UpdateProducts(sellerId, parsed.updates, existing, fault);
    if ur.Err? {
      return Response(500, Message("service error"));
    }
    var errs := Merged(ur.value.errors, RowErrorsOf(parsed.rowErrors));
    return Response(200, Report(ur.value.added, ur.value.updated, ur.value.deleted, errs));
  }

  /** Only a successful answer changes the table, and only a file that
      parses and a service call that succeeds give one. */
  lemma AnswerUnchanged(t: Table, sellerId: nat, out: XlsxParser.ParseOutcome, existing: seq<nat>, fault: Fault)
    ensures Answer(t, sellerId, out, existing, fault).status != 200 ==> AnswerTable(t, sellerId, out, existing, fault) == t
    ensures Answer(t, sellerId, out, existing, fault).status == 200 <==>
              out.Parsed? && Updated(t, sellerId, out.updates, existing, fault).Ok?
  {
    if out.Parsed? {
      UpdatedKeeps(t, sellerId, out.updates, existing, fault);
    }
  }

  /** A URL that cannot be fetched is answered 400 "bad table url" and
      nothing is parsed or stored. */
  lemma PostedBadUrl(t: Table, sellerId: nat, existing: seq<nat>, fault: Fault)
    ensures Posted(t, sellerId, None, existing, fault) == Response(400, Message("bad table url"))
    ensures PostedTable(t, sellerId, None, existing, fault) == t
  {
  }

  /** A workbook that prepare rejects is answered with that rejection and
      nothing is stored, whatever the length of its rows. */
  lemma PostedRejectedSheet(t: Table, sellerId: nat, doc: Document, existing: seq<nat>, fault: Fault)
    requires doc.Workbook? && XlsxParser.Prepared(doc.sheets, doc.access).Err?
    ensures XlsxParser.RowLoopInBounds(doc)
    ensures Posted(t, sellerId, Some(doc), existing, fault) ==
            FailureResponse(XlsxParser.Prepared(doc.sheets, doc.access).error)
    ensures PostedTable(t, sellerId, Some(doc), existing, fault) == t
  {
  }

  /** A sheet without a single valid row gives the service an empty
      request: the answer is a server error and the row errors are not
      reported. */
  lemma AnswerNoValidRow(t: Table, sellerId: nat, out: XlsxParser.ParseOutcome, existing: seq<nat>, fault: Fault)
    requires out.Parsed? && out.updates == []
    ensures Answer(t, sellerId, out, existing, fault) == Response(500, Message("service error"))
  {
  }

  /** A successful answer reports every refused product and every row
      error, service errors first, and accounts for every parsed update. */
  lemma AnswerReport(t: Table, sellerId: nat, out: XlsxParser.ParseOutcome, existing: seq<nat>, fault: Fault)
    requires Answer(t, sellerId, out, existing, fault).status == 200
    ensures var body := Answer(t, sellerId, out, existing, fault).body;
            var svcErrors := MakePlan(out.updates, existing).errors;
            && out.Parsed? && body.Report?
            && |body.errors| == |svcErrors| + |RowErrorsOf(out.rowErrors)|
            && (forall e :: e in RowErrorsOf(out.rowErrors) ==> Unparsable(e) in body.errors)
            && (forall e :: e in svcErrors ==> Invalid(e) in body.errors)
            && body.added + body.updated + |svcErrors| <= |out.updates|
            && body.deleted <= |out.updates|
  {
    var res := Updated(t, sellerId, out.updates, existing, fault).value;
    var body := Answer(t, sellerId, out, existing, fault).body;
    var svcErrors := MakePlan(out.updates, existing).errors;
    var rows := RowErrorsOf(out.rowErrors);
    UpdatedReports(t, sellerId, out.updates, existing, fault);
    PickCounts(out.updates, existing);
    assert res.errors == svcErrors;
    forall e | e in rows ensures Unparsable(e) in body.errors {
      var j :| 0 <= j < |rows| && rows[j] == e;
      assert body.errors[|svcErrors| + j] == Unparsable(e);
    }
    forall e | e in svcErrors ensures Invalid(e) in body.errors {
      var i :| 0 <= i < |svcErrors| && svcErrors[i] == e;
      assert body.errors[i] == Invalid(e);
    }
  }
}
