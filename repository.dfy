/** internal/repository: the products table and the two statements the
    pipeline runs against it. The table is a map from (seller, offer) to the
    stored product; the SQL text, the query builder and the driver are not
    modelled, and a driver or builder failure is an input (`Fault`) naming
    the step that fails. */
module Repository {
  import opened GoStd
  import opened Models

  /** ProductsByFilter's LIMIT. */
  const DefaultLimit: nat := 100

  /** The table's primary key, the `no_duplicates` constraint. */
  datatype Key = Key(sellerId: nat, offerId: nat)

  /** One VALUES tuple of the upsert: the product tagged with its seller. */
  datatype SellerProduct = SellerProduct(sellerId: nat, product: Product)
  {
    /** The primary key the tuple is stored under. */
    function RowKey(): Key { Key(sellerId, product.offerId) }
  }

  datatype RepoError = ErrQueryBuilderFailed | ErrTxFailed | ErrQueryExecFailed | ErrEmptyRequest

  /** The step of ManageProducts at which the database or the query builder
      fails, if any. A fault of a step that is skipped has no effect. */
  datatype Fault =
    | NoFault
    | BeginFails
    | InsertBuildFails
    | InsertExecFails
    | InsertResultFails
    | DeleteBuildFails
    | DeleteExecFails
    | DeleteResultFails
    | CommitFails

  type Table = map<Key, Product>

  /** Every stored product sits under its own offer id. */
  predicate Consistent(t: Table)
  {
    forall k :: k in t ==> t[k].offerId == k.offerId
  }

  // ---------------------------------------------------------------------
  // The upsert

  /** The VALUES list of the upsert: the products in order, each tagged
      with the seller. */
  function Tagged(sellerId: nat, ps: seq<Product>): (rows: seq<SellerProduct>)
    ensures |rows| == |ps|
    ensures forall i :: 0 <= i < |ps| ==> rows[i] == SellerProduct(sellerId, ps[i])
  {
    if ps == [] then [] else Tagged(sellerId, ps[..|ps| - 1]) + [SellerProduct(sellerId, ps[|ps| - 1])]
  }

  /** Two tuples of one INSERT ... ON CONFLICT DO UPDATE hit the same key,
      which PostgreSQL rejects. */
  predicate RepeatedKey(rows: seq<SellerProduct>)
  {
    exists i, j :: 0 <= i < j < |rows| && rows[i].RowKey() == rows[j].RowKey()
  }

  /** The table after inserting each tuple, a tuple whose key exists
      replacing name, price and quantity of the stored row. */
  function Upserted(t: Table, rows: seq<SellerProduct>): Table
  {
    if rows == [] then t
    else
      var last := rows[|rows| - 1];
      Upserted(t, rows[..|rows| - 1])[last.RowKey() := last.product]
  }

  lemma UpsertedStep(t: Table, rows: seq<SellerProduct>, k: nat)
    requires k < |rows|
    ensures Upserted(t, rows[..k + 1]) == Upserted(t, rows[..k])[rows[k].RowKey() := rows[k].product]
  {
    assert rows[..k + 1][..k] == rows[..k];
  }

  /** Tuples 0..n-1 have pairwise different keys. */
  lemma NoRepeatPrefix(rows: seq<SellerProduct>, n: nat)
    requires n <= |rows| && !RepeatedKey(rows)
    ensures !RepeatedKey(rows[..n])
  {
    forall i, j | 0 <= i < j < n ensures rows[..n][i].RowKey() != rows[..n][j].RowKey() {
      assert rows[..n][i] == rows[i] && rows[..n][j] == rows[j];
    }
  }

  /** The upsert stores every tuple under its key. */
  lemma {:induction false} UpsertStores(t: Table, rows: seq<SellerProduct>)
    requires !RepeatedKey(rows)
    ensures forall i :: 0 <= i < |rows| ==>
              rows[i].RowKey() in Upserted(t, rows) && Upserted(t, rows)[rows[i].RowKey()] == rows[i].product
  {
    if rows != [] {
      var n := |rows| - 1;
      UpsertedStep(t, rows, n);
      assert rows[..n + 1] == rows;
      NoRepeatPrefix(rows, n);
      UpsertStores(t, rows[..n]);
      forall i | 0 <= i < n
        ensures rows[i].RowKey() in Upserted(t, rows) && Upserted(t, rows)[rows[i].RowKey()] == rows[i].product
      {
        assert rows[..n][i] == rows[i];
      }
    }
  }

  /** The upsert keeps every row no tuple names. */
  lemma {:induction false} UpsertKeeps(t: Table, rows: seq<SellerProduct>)
    ensures forall k :: k in t && (forall i :: 0 <= i < |rows| ==> rows[i].RowKey() != k) ==>
              k in Upserted(t, rows) && Upserted(t, rows)[k] == t[k]
  {
    if rows != [] {
      var n := |rows| - 1;
      UpsertedStep(t, rows, n);
      assert rows[..n + 1] == rows;
      UpsertKeeps(t, rows[..n]);
      forall k | k in t && (forall i :: 0 <= i < |rows| ==> rows[i].RowKey() != k)
        ensures forall i :: 0 <= i < n ==> rows[..n][i].RowKey() != k
      {
        forall i | 0 <= i < n ensures rows[..n][i].RowKey() != k {
          assert rows[..n][i] == rows[i];
        }
      }
    }
  }

  /** The upsert adds no key but the tuples' keys. */
  lemma {:induction false} UpsertKeys(t: Table, rows: seq<SellerProduct>)
    ensures forall k :: k in Upserted(t, rows) ==>
              k in t || exists i :: 0 <= i < |rows| && rows[i].RowKey() == k
  {
    if rows != [] {
      var n := |rows| - 1;
      UpsertedStep(t, rows, n);
      assert rows[..n + 1] == rows;
      UpsertKeys(t, rows[..n]);
      forall k | k in Upserted(t, rows) && k !in t
        ensures exists i :: 0 <= i < |rows| && rows[i].RowKey() == k
      {
        if k != rows[n].RowKey() {
          var i :| 0 <= i < n && rows[..n][i].RowKey() == k;
          assert rows[i].RowKey() == k;
        }
      }
    }
  }

  /** The upsert keeps stored products under their own offer id. */
  lemma {:induction false} UpsertConsistent(t: Table, rows: seq<SellerProduct>)
    requires Consistent(t)
    ensures Consistent(Upserted(t, rows))
  {
    if rows != [] {
      UpsertConsistent(t, rows[..|rows| - 1]);
    }
  }

  /** Applying the same tuples again changes nothing. */
  lemma UpsertIdempotent(t: Table, rows: seq<SellerProduct>)
    requires !RepeatedKey(rows)
    ensures Upserted(Upserted(t, rows), rows) == Upserted(t, rows)
  {
    var once := Upserted(t, rows);
    UpsertStores(t, rows);
    UpsertStores(once, rows);
    UpsertKeeps(once, rows);
    UpsertKeys(once, rows);
    var twice := Upserted(once, rows);
    forall k | k in twice ensures k in once {
    }
    forall k | k in once ensures k in twice && twice[k] == once[k] {
      if i :| 0 <= i < |rows| && rows[i].RowKey() == k {
      }
    }
  }

  /** Tuples whose products are already stored under their keys change
      nothing. */
  lemma {:induction false} UpsertAlreadyStored(t: Table, rows: seq<SellerProduct>)
    requires forall i :: 0 <= i < |rows| ==> rows[i].RowKey() in t && t[rows[i].RowKey()] == rows[i].product
    ensures Upserted(t, rows) == t
  {
    if rows != [] {
      var n := |rows| - 1;
      UpsertedStep(t, rows, n);
      assert rows[..n + 1] == rows;
      forall i | 0 <= i < n
        ensures rows[..n][i].RowKey() in t && t[rows[..n][i].RowKey()] == rows[..n][i].product
      {
        assert rows[..n][i] == rows[i];
      }
      UpsertAlreadyStored(t, rows[..n]);
      assert t[rows[n].RowKey() := rows[n].product] == t;
    }
  }

  // ---------------------------------------------------------------------
  // The delete

  /** The rows of seller `sellerId` whose offer id is in `ids`. */
  predicate Doomed(k: Key, sellerId: nat, ids: seq<nat>)
  {
    k.sellerId == sellerId && k.offerId in ids
  }

  /** DELETE FROM products WHERE offer_id IN ids AND seller_id = sellerId. */
  function DeleteWhere(t: Table, sellerId: nat, ids: seq<nat>): (r: Table)
    ensures forall k :: k in r <==> k in t && !Doomed(k, sellerId, ids)
    ensures forall k :: k in r ==> r[k] == t[k]
  {
    map k | k in t && !Doomed(k, sellerId, ids) :: t[k]
  }

  /** A delete with no ids keeps every row. */
  lemma DeleteNothing(t: Table, sellerId: nat, ids: seq<nat>)
    requires ids == []
    ensures DeleteWhere(t, sellerId, ids) == t
  {
    assert DeleteWhere(t, sellerId, ids).Keys == t.Keys;
  }

  /** The number of rows the delete removes. */
  function DeletedCount(t: Table, sellerId: nat, ids: seq<nat>): nat
  {
    |t.Keys - DeleteWhere(t, sellerId, ids).Keys|
  }

  lemma DeleteStep(t: Table, sellerId: nat, ids: seq<nat>, i: nat)
    requires i < |ids|
    ensures var before := DeleteWhere(t, sellerId, ids[..i]);
            var k := Key(sellerId, ids[i]);
            DeleteWhere(t, sellerId, ids[..i + 1]) == if k in before then before - {k} else before
  {
    var before := DeleteWhere(t, sellerId, ids[..i]);
    var k := Key(sellerId, ids[i]);
    var after := DeleteWhere(t, sellerId, ids[..i + 1]);
    assert ids[..i + 1] == ids[..i] + [ids[i]];
    forall x ensures Doomed(x, sellerId, ids[..i + 1]) <==> Doomed(x, sellerId, ids[..i]) || x == k {
      assert x.offerId in ids[..i + 1] <==> x.offerId in ids[..i] || x.offerId == ids[i];
    }
    var expected := if k in before then before - {k} else before;
    assert after.Keys == expected.Keys;
  }

  lemma RemoveOne(s: set<Key>, k: Key)
    requires k in s
    ensures |s - {k}| == |s| - 1
  {
    assert s == (s - {k}) + {k};
  }

  /** Removing the rows of seller s with offer ids in `ids` one id at a time
      removes what the delete removes, and counts them. */
  lemma {:induction false} DeleteCountStep(t: Table, sellerId: nat, ids: seq<nat>, i: nat)
    requires i < |ids|
    ensures var before := DeleteWhere(t, sellerId, ids[..i]);
            DeletedCount(t, sellerId, ids[..i + 1]) ==
              DeletedCount(t, sellerId, ids[..i]) + (if Key(sellerId, ids[i]) in before then 1 else 0)
  {
    var before := DeleteWhere(t, sellerId, ids[..i]);
    var k := Key(sellerId, ids[i]);
    DeleteStep(t, sellerId, ids, i);
    if k in before {
      var after := before - {k};
      assert after.Keys == before.Keys - {k};
      assert t.Keys - after.Keys == (t.Keys - before.Keys) + {k};
      assert k !in t.Keys - before.Keys;
    }
  }

  /** The delete removes at most one row per listed id. */
  lemma {:induction false} DeletedAtMostIds(t: Table, sellerId: nat, ids: seq<nat>)
    ensures DeletedCount(t, sellerId, ids) <= |ids|
  {
    if ids != [] {
      var n := |ids| - 1;
      DeleteCountStep(t, sellerId, ids, n);
      DeletedAtMostIds(t, sellerId, ids[..n]);
      assert ids[..n + 1] == ids;
    }
  }

  /** Deleting again removes nothing more. */
  lemma DeleteIdempotent(t: Table, sellerId: nat, ids: seq<nat>)
    ensures DeleteWhere(DeleteWhere(t, sellerId, ids), sellerId, ids) == DeleteWhere(t, sellerId, ids)
    ensures DeletedCount(DeleteWhere(t, sellerId, ids), sellerId, ids) == 0
  {
    var once := DeleteWhere(t, sellerId, ids);
    assert DeleteWhere(once, sellerId, ids).Keys == once.Keys;
  }

  /** The offer ids of the products to delete, in order. */
  function OfferIds(ps: seq<Product>): (ids: seq<nat>)
    ensures |ids| == |ps| && forall i :: 0 <= i < |ps| ==> ids[i] == ps[i].offerId
  {
    if ps == [] then [] else OfferIds(ps[..|ps| - 1]) + [ps[|ps| - 1].offerId]
  }

  // ---------------------------------------------------------------------
  // ManageProducts as a function

  /** The upsert step of the transaction: skipped when there is nothing to
      add or update, else build, execute, read the affected-row count. */
  function UpsertPhase(t: Table, sellerId: nat, toAdd: seq<Product>, toUpdate: seq<Product>,
                       fault: Fault): Result<Table, RepoError>
  {
    var rows := Tagged(sellerId, toAdd + toUpdate);
    if |rows| == 0 then Ok(t)
    else if fault == InsertBuildFails then Err(ErrQueryBuilderFailed)
    else if fault == InsertExecFails || RepeatedKey(rows) then Err(ErrQueryExecFailed)
    else if fault == InsertResultFails then Err(ErrQueryExecFailed)
    else Ok(Upserted(t, rows))
  }

  /** The upsert phase keeps stored products under their own offer id. */
  lemma UpsertPhaseConsistent(t: Table, sellerId: nat, toAdd: seq<Product>, toUpdate: seq<Product>,
                              fault: Fault)
    requires Consistent(t) && UpsertPhase(t, sellerId, toAdd, toUpdate, fault).Ok?
    ensures Consistent(UpsertPhase(t, sellerId, toAdd, toUpdate, fault).value)
  {
    UpsertConsistent(t, Tagged(sellerId, toAdd + toUpdate));
  }

  /** The table after the delete and the number of rows it removed. */
  datatype Deletion = Deletion(table: Table, count: nat)

  /** The delete step of the transaction: skipped when there is nothing to
      delete, else build, execute, read the affected-row count. */
  function DeletePhase(t: Table, sellerId: nat, toDelete: seq<Product>, fault: Fault): Result<Deletion, RepoError>
  {
    var ids := OfferIds(toDelete);
    if |ids| == 0 then Ok(Deletion(t, 0))
    else if fault == DeleteBuildFails then Err(ErrQueryBuilderFailed)
    else if fault == DeleteExecFails || fault == DeleteResultFails then Err(ErrQueryExecFailed)
    else Ok(Deletion(DeleteWhere(t, sellerId, ids), DeletedCount(t, sellerId, ids)))
  }

  /** The delete phase keeps stored products under their own offer id. */
  lemma DeletePhaseConsistent(t: Table, sellerId: nat, toDelete: seq<Product>, fault: Fault)
    requires Consistent(t) && DeletePhase(t, sellerId, toDelete, fault).Ok?
    ensures Consistent(DeletePhase(t, sellerId, toDelete, fault).value.table)
  {
    var ids := OfferIds(toDelete);
    if |ids| > 0 {
      var r := DeleteWhere(t, sellerId, ids);
      assert DeletePhase(t, sellerId, toDelete, fault).value.table == r;
    }
  }

  /** The transaction either commits a new table and the number of deleted
      rows, or is rolled back with an error. */
  datatype Outcome = Committed(table: Table, deleted: nat) | Aborted(err: RepoError)

  /** ManageProducts step by step: the empty-request guard, BEGIN, the
      upsert of the add rows followed by the update rows, the delete, and
      COMMIT. Any failure rolls the whole transaction back. */
  function Managed(t: Table, sellerId: nat, toAdd: seq<Product>, toDelete: seq<Product>,
                   toUpdate: seq<Product>, fault: Fault): Outcome
  {
    if |toAdd| + |toUpdate| + |toDelete| == 0 then Aborted(ErrEmptyRequest)
    else if fault == BeginFails then Aborted(ErrTxFailed)
    else
      match UpsertPhase(t, sellerId, toAdd, toUpdate, fault)
      case Err(e) => Aborted(e)
      case Ok(t1) =>
        match DeletePhase(t1, sellerId, toDelete, fault)
        case Err(e) => Aborted(e)
        case Ok(d) => if fault == CommitFails then Aborted(ErrTxFailed) else Committed(d.table, d.count)
  }

  /** An empty request, and a failure of any step that runs, aborts with
      that step's error: ErrTxFailed for BEGIN and COMMIT,
      ErrQueryBuilderFailed for building a statement, ErrQueryExecFailed for
      executing it or reading its result; otherwise the transaction
      commits. */
  lemma ManagedErrors(t: Table, sellerId: nat, toAdd: seq<Product>, toDelete: seq<Product>,
                      toUpdate: seq<Product>, fault: Fault)
    ensures var o := Managed(t, sellerId, toAdd, toDelete, toUpdate, fault);
            var inserts, deletes := |toAdd| + |toUpdate| > 0, |toDelete| > 0;
            && (!inserts && !deletes ==> o == Aborted(ErrEmptyRequest))
            && ((inserts || deletes) && fault == BeginFails ==> o == Aborted(ErrTxFailed))
            && (inserts && fault == InsertBuildFails ==> o == Aborted(ErrQueryBuilderFailed))
            && (inserts && fault in {InsertExecFails, InsertResultFails} ==> o == Aborted(ErrQueryExecFailed))
            && (deletes && fault == DeleteBuildFails ==> o.Aborted? && o.err != ErrEmptyRequest)
            && (deletes && !inserts && fault == DeleteBuildFails ==> o == Aborted(ErrQueryBuilderFailed))
            && (deletes && !inserts && fault in {DeleteExecFails, DeleteResultFails} ==> o == Aborted(ErrQueryExecFailed))
            && ((inserts || deletes) && fault == CommitFails ==> o.Aborted? && o.err != ErrEmptyRequest)
  {
    UpsertPhaseOk(t, sellerId, toAdd, toUpdate, fault);
    var u := UpsertPhase(t, sellerId, toAdd, toUpdate, fault);
    if u.Ok? {
      DeletePhaseOk(u.value, sellerId, toDelete, fault);
    }
  }

  /** The transaction commits exactly when the request is not empty, no
      step that runs fails and the upsert names no row twice. */
  lemma ManagedCommits(t: Table, sellerId: nat, toAdd: seq<Product>, toDelete: seq<Product>,
                       toUpdate: seq<Product>, fault: Fault)
    ensures var o := Managed(t, sellerId, toAdd, toDelete, toUpdate, fault);
            var inserts, deletes := |toAdd| + |toUpdate| > 0, |toDelete| > 0;
            (o.Committed? <==>
                  && (inserts || deletes)
                  && fault !in {BeginFails, CommitFails}
                  && (inserts ==>
                        && fault !in {InsertBuildFails, InsertExecFails, InsertResultFails}
                        && !RepeatedKey(Tagged(sellerId, toAdd + toUpdate)))
                  && (deletes ==> fault !in {DeleteBuildFails, DeleteExecFails, DeleteResultFails}))
  {
    UpsertPhaseOk(t, sellerId, toAdd, toUpdate, fault);
    var u := UpsertPhase(t, sellerId, toAdd, toUpdate, fault);
    if u.Ok? {
      DeletePhaseOk(u.value, sellerId, toDelete, fault);
    }
  }

  /** The upsert phase succeeds exactly when it has nothing to do, or
      neither of its statements fails and no row is named twice. */
  lemma UpsertPhaseOk(t: Table, sellerId: nat, toAdd: seq<Product>, toUpdate: seq<Product>, fault: Fault)
    ensures UpsertPhase(t, sellerId, toAdd, toUpdate, fault).Ok? <==>
              (|toAdd| + |toUpdate| > 0 ==>
                 && fault !in {InsertBuildFails, InsertExecFails, InsertResultFails}
                 && !RepeatedKey(Tagged(sellerId, toAdd + toUpdate)))
  {
  }

  /** The delete phase succeeds exactly when it has nothing to do, or
      neither of its steps fails. */
  lemma DeletePhaseOk(t: Table, sellerId: nat, toDelete: seq<Product>, fault: Fault)
    ensures DeletePhase(t, sellerId, toDelete, fault).Ok? <==>
              (|toDelete| > 0 ==> fault !in {DeleteBuildFails, DeleteExecFails, DeleteResultFails})
  {
  }

  /** A committed transaction went through both phases and COMMIT. */
  lemma ManagedCommitted(t: Table, sellerId: nat, toAdd: seq<Product>, toDelete: seq<Product>,
                         toUpdate: seq<Product>, fault: Fault)
    requires Managed(t, sellerId, toAdd, toDelete, toUpdate, fault).Committed?
    ensures UpsertPhase(t, sellerId, toAdd, toUpdate, fault).Ok?
    ensures var t1 := UpsertPhase(t, sellerId, toAdd, toUpdate, fault).value;
            var d := DeletePhase(t1, sellerId, toDelete, fault);
            && d.Ok?
            && Managed(t, sellerId, toAdd, toDelete, toUpdate, fault) == Committed(d.value.table, d.value.count)
  {
  }

  /** A committed transaction keeps stored products under their own offer
      id. */
  lemma ManagedConsistent(t: Table, sellerId: nat, toAdd: seq<Product>, toDelete: seq<Product>,
                          toUpdate: seq<Product>, fault: Fault)
    requires Consistent(t) && Managed(t, sellerId, toAdd, toDelete, toUpdate, fault).Committed?
    ensures Consistent(Managed(t, sellerId, toAdd, toDelete, toUpdate, fault).table)
  {
    ManagedCommitted(t, sellerId, toAdd, toDelete, toUpdate, fault);
    UpsertPhaseConsistent(t, sellerId, toAdd, toUpdate, fault);
    DeletePhaseConsistent(UpsertPhase(t, sellerId, toAdd, toUpdate, fault).value, sellerId, toDelete, fault);
  }

  /** A successful upsert phase stores every add and update product under
      (seller, offer id) and keeps every row none of them names. */
  lemma UpsertPhaseEffect(t: Table, sellerId: nat, toAdd: seq<Product>, toUpdate: seq<Product>, fault: Fault)
    requires UpsertPhase(t, sellerId, toAdd, toUpdate, fault).Ok?
    ensures var t1 := UpsertPhase(t, sellerId, toAdd, toUpdate, fault).value;
            && (forall p :: p in toAdd + toUpdate ==>
                  Key(sellerId, p.offerId) in t1 && t1[Key(sellerId, p.offerId)] == p)
            && (forall k :: k in t && (forall p :: p in toAdd + toUpdate ==> Key(sellerId, p.offerId) != k) ==>
                  k in t1 && t1[k] == t[k])
  {
    var ps := toAdd + toUpdate;
    var rows := Tagged(sellerId, ps);
    if |rows| > 0 {
      UpsertStores(t, rows);
      UpsertKeeps(t, rows);
      var t1 := Upserted(t, rows);
      forall p | p in ps
        ensures Key(sellerId, p.offerId) in t1 && t1[Key(sellerId, p.offerId)] == p
      {
        var i :| 0 <= i < |ps| && ps[i] == p;
        assert rows[i].RowKey() == Key(sellerId, p.offerId);
      }
      forall k | k in t && (forall p :: p in ps ==> Key(sellerId, p.offerId) != k)
        ensures forall i :: 0 <= i < |rows| ==> rows[i].RowKey() != k
      {
        forall i | 0 <= i < |rows| ensures rows[i].RowKey() != k {
          assert ps[i] in ps;
        }
      }
    }
  }

  /** A committed request stores every add and update product under
      (seller, offer id) unless it is also listed for deletion. */
  lemma ManagedStores(t: Table, sellerId: nat, toAdd: seq<Product>, toDelete: seq<Product>,
                      toUpdate: seq<Product>, fault: Fault, p: Product)
    requires Managed(t, sellerId, toAdd, toDelete, toUpdate, fault).Committed?
    requires p in toAdd + toUpdate && p.offerId !in OfferIds(toDelete)
    ensures var t2 := Managed(t, sellerId, toAdd, toDelete, toUpdate, fault).table;
            Key(sellerId, p.offerId) in t2 && t2[Key(sellerId, p.offerId)] == p
  {
    ManagedCommitted(t, sellerId, toAdd, toDelete, toUpdate, fault);
    UpsertPhaseEffect(t, sellerId, toAdd, toUpdate, fault);
  }

  /** A successful delete phase leaves no row of the seller whose offer id
      is listed, and counts at most one row per listed product. */
  lemma DeletePhaseEffect(t: Table, sellerId: nat, toDelete: seq<Product>, fault: Fault)
    requires DeletePhase(t, sellerId, toDelete, fault).Ok?
    ensures var d := DeletePhase(t, sellerId, toDelete, fault).value;
            && (forall k :: k in d.table ==> !Doomed(k, sellerId, OfferIds(toDelete)))
            && d.count <= |toDelete|
  {
    var ids := OfferIds(toDelete);
    if |ids| == 0 {
      assert DeletePhase(t, sellerId, toDelete, fault) == Ok(Deletion(t, 0));
    } else {
      assert DeletePhase(t, sellerId, toDelete, fault)
          == Ok(Deletion(DeleteWhere(t, sellerId, ids), DeletedCount(t, sellerId, ids)));
      DeletedAtMostIds(t, sellerId, ids);
    }
  }

  /** A committed request removes every row of the seller whose offer id is
      listed for deletion, and reports at most one deleted row per listed
      product. */
  lemma ManagedDeletes(t: Table, sellerId: nat, toAdd: seq<Product>, toDelete: seq<Product>,
                       toUpdate: seq<Product>, fault: Fault)
    requires Managed(t, sellerId, toAdd, toDelete, toUpdate, fault).Committed?
    ensures var o := Managed(t, sellerId, toAdd, toDelete, toUpdate, fault);
            && (forall k :: k in o.table ==> !Doomed(k, sellerId, OfferIds(toDelete)))
            && o.deleted <= |toDelete|
  {
    ManagedCommitted(t, sellerId, toAdd, toDelete, toUpdate, fault);
    DeletePhaseEffect(UpsertPhase(t, sellerId, toAdd, toUpdate, fault).value, sellerId, toDelete, fault);
  }

  /** A committed request leaves every row that is neither listed for
      deletion nor named by an add or update product as it was. */
  lemma ManagedKeeps(t: Table, sellerId: nat, toAdd: seq<Product>, toDelete: seq<Product>,
                     toUpdate: seq<Product>, fault: Fault, k: Key)
    requires Managed(t, sellerId, toAdd, toDelete, toUpdate, fault).Committed?
    requires k in t && !Doomed(k, sellerId, OfferIds(toDelete))
    requires forall p :: p in toAdd + toUpdate ==> Key(sellerId, p.offerId) != k
    ensures var t2 := Managed(t, sellerId, toAdd, toDelete, toUpdate, fault).table;
            k in t2 && t2[k] == t[k]
  {
    ManagedCommitted(t, sellerId, toAdd, toDelete, toUpdate, fault);
    UpsertPhaseEffect(t, sellerId, toAdd, toUpdate, fault);
  }

  /** Repeating a committed request with the same lists, when no product is
      both stored and deleted, leaves the table as the first one left it and
      deletes nothing more. */
  lemma ManagedIdempotent(t: Table, sellerId: nat, toAdd: seq<Product>, toDelete: seq<Product>,
                          toUpdate: seq<Product>)
    requires Managed(t, sellerId, toAdd, toDelete, toUpdate, NoFault).Committed?
    requires forall p, q :: p in toAdd + toUpdate && q in toDelete ==> p.offerId != q.offerId
    ensures var once := Managed(t, sellerId, toAdd, toDelete, toUpdate, NoFault).table;
            Managed(once, sellerId, toAdd, toDelete, toUpdate, NoFault) == Committed(once, 0)
  {
    ManagedCommitted(t, sellerId, toAdd, toDelete, toUpdate, NoFault);
    var t1 := UpsertPhase(t, sellerId, toAdd, toUpdate, NoFault).value;
    var once := DeletePhase(t1, sellerId, toDelete, NoFault).value.table;
    UpsertPhaseEffect(t, sellerId, toAdd, toUpdate, NoFault);
    DeleteKeepsStored(t1, sellerId, toAdd + toUpdate, toDelete);
    UpsertPhaseAgain(once, sellerId, toAdd, toUpdate);
    DeletePhaseAgain(t1, sellerId, toDelete);
  }

  /** The delete phase keeps each stored product no listed id names. */
  lemma DeleteKeepsStored(t1: Table, sellerId: nat, ps: seq<Product>, toDelete: seq<Product>)
    requires forall p :: p in ps ==> Key(sellerId, p.offerId) in t1 && t1[Key(sellerId, p.offerId)] == p
    requires forall p, q :: p in ps && q in toDelete ==> p.offerId != q.offerId
    ensures var once := DeletePhase(t1, sellerId, toDelete, NoFault).value.table;
            forall p :: p in ps ==> Key(sellerId, p.offerId) in once && once[Key(sellerId, p.offerId)] == p
  {
    var ids := OfferIds(toDelete);
    forall p | p in ps ensures p.offerId !in ids {
      forall j | 0 <= j < |ids| ensures ids[j] != p.offerId {
        assert toDelete[j] in toDelete;
      }
    }
  }

  /** Upserting products already stored under their keys is a successful
      phase that changes nothing. */
  lemma UpsertPhaseAgain(once: Table, sellerId: nat, toAdd: seq<Product>, toUpdate: seq<Product>)
    requires forall p :: p in toAdd + toUpdate ==>
               Key(sellerId, p.offerId) in once && once[Key(sellerId, p.offerId)] == p
    requires !RepeatedKey(Tagged(sellerId, toAdd + toUpdate))
    ensures UpsertPhase(once, sellerId, toAdd, toUpdate, NoFault) == Ok(once)
  {
    var ps := toAdd + toUpdate;
    var rows := Tagged(sellerId, ps);
    forall i | 0 <= i < |rows| ensures rows[i].RowKey() in once && once[rows[i].RowKey()] == rows[i].product {
      assert ps[i] in ps;
    }
    UpsertAlreadyStored(once, rows);
  }

  /** A second delete with the same list removes nothing. */
  lemma DeletePhaseAgain(t1: Table, sellerId: nat, toDelete: seq<Product>)
    ensures var once := DeletePhase(t1, sellerId, toDelete, NoFault).value.table;
            DeletePhase(once, sellerId, toDelete, NoFault) == Ok(Deletion(once, 0))
  {
    var ids := OfferIds(toDelete);
    if |ids| > 0 {
      DeleteIdempotent(t1, sellerId, ids);
    }
  }

  // ---------------------------------------------------------------------
  // The read path

  /** service.RequestFilter as the router and the repository use it: an
      empty id list imposes no constraint. */
  datatype RequestFilter = RequestFilter(sellerIds: seq<nat>, offerIds: seq<nat>, substring: string)

  /** The WHERE clause ProductsByFilter builds: seller in the list, offer in
      the list, and the name LIKE the trimmed substring, each only when
      given. `like` stands for PostgreSQL's LIKE. */
  predicate Matches(f: RequestFilter, k: Key, p: Product, like: (string, string) -> bool)
  {
    && (|f.sellerIds| == 0 || k.sellerId in f.sellerIds)
    && (|f.offerIds| == 0 || k.offerId in f.offerIds)
    && (TrimSpace(f.substring) == [] || like(p.name, TrimSpace(f.substring)))
  }

  /** An empty filter, and one whose substring is only white space, lets
      every row through. */
  lemma EmptyFilterMatchesAll(f: RequestFilter, k: Key, p: Product, like: (string, string) -> bool)
    requires |f.sellerIds| == 0 && |f.offerIds| == 0
    requires forall i :: 0 <= i < |f.substring| ==> IsSpace(f.substring[i])
    ensures Matches(f, k, p, like)
  {
    TrimSpaceEmpty(f.substring);
  }

  /** The order in which the database scans the table: every key once. */
  predicate ScanOrder(scan: seq<Key>, t: Table)
  {
    && (forall i :: 0 <= i < |scan| ==> scan[i] in t)
    && (forall k :: k in t ==> k in scan)
    && (forall i, j :: 0 <= i < j < |scan| ==> scan[i] != scan[j])
  }

  /** The keys of the first `limit` matching rows in scan order. */
  function Selected(t: Table, scan: seq<Key>, f: RequestFilter, like: (string, string) -> bool,
                    limit: nat): (keys: seq<Key>)
    requires forall i :: 0 <= i < |scan| ==> scan[i] in t
    ensures |keys| <= limit
    ensures forall k :: k in keys ==> k in scan && Matches(f, k, t[k], like)
  {
    if scan == [] || limit == 0 then []
    else if Matches(f, scan[0], t[scan[0]], like) then
      [scan[0]] + Selected(t, scan[1..], f, like, limit - 1)
    else Selected(t, scan[1..], f, like, limit)
  }

  /** Every match is selected unless the limit was reached. */
  lemma {:induction false} SelectedComplete(t: Table, scan: seq<Key>, f: RequestFilter,
                                            like: (string, string) -> bool, limit: nat)
    requires forall i :: 0 <= i < |scan| ==> scan[i] in t
    ensures var keys := Selected(t, scan, f, like, limit);
            |keys| < limit ==> forall k :: k in scan && Matches(f, k, t[k], like) ==> k in keys
  {
    if scan != [] && limit > 0 {
      var rest := scan[1..];
      if Matches(f, scan[0], t[scan[0]], like) {
        SelectedComplete(t, rest, f, like, limit - 1);
      } else {
        SelectedComplete(t, rest, f, like, limit);
      }
      forall k | k in scan && k != scan[0] ensures k in rest {
        var i :| 0 <= i < |scan| && scan[i] == k;
        assert rest[i - 1] == k;
      }
    }
  }

  /** No key occurs twice. */
  predicate Distinct(keys: seq<Key>)
  {
    forall i, j :: 0 <= i < j < |keys| ==> keys[i] != keys[j]
  }

  /** No row is selected twice. */
  lemma {:induction false} SelectedDistinct(t: Table, scan: seq<Key>, f: RequestFilter,
                                            like: (string, string) -> bool, limit: nat)
    requires forall i :: 0 <= i < |scan| ==> scan[i] in t
    requires forall i, j :: 0 <= i < j < |scan| ==> scan[i] != scan[j]
    ensures Distinct(Selected(t, scan, f, like, limit))
  {
    if scan != [] && limit > 0 {
      var rest := scan[1..];
      forall i, j | 0 <= i < j < |rest| ensures rest[i] != rest[j] {
        assert rest[i] == scan[i + 1] && rest[j] == scan[j + 1];
      }
      if Matches(f, scan[0], t[scan[0]], like) {
        SelectedDistinct(t, rest, f, like, limit - 1);
        var tail := Selected(t, rest, f, like, limit - 1);
        forall j | 0 <= j < |rest| ensures rest[j] != scan[0] {
          assert rest[j] == scan[j + 1];
        }
        assert scan[0] !in tail;
        var keys := [scan[0]] + tail;
        assert Selected(t, scan, f, like, limit) == keys;
        forall i, j | 0 <= i < j < |keys| ensures keys[i] != keys[j] {
          if i == 0 {
            assert keys[j] == tail[j - 1];
          } else {
            assert keys[i] == tail[i - 1] && keys[j] == tail[j - 1];
          }
        }
      } else {
        SelectedDistinct(t, rest, f, like, limit);
        assert Selected(t, scan, f, like, limit) == Selected(t, rest, f, like, limit);
      }
    }
  }

  /** What the SELECT of ProductsByFilter can run into. */
  datatype SelectFault = SelectOk | SelectBuildFails | SelectExecFails

  /** The products table of one database. */
  class Repository {
    var table: Table

    ghost predicate Valid()
      reads this
    {
      Consistent(table)
    }

    constructor(initial: Table)
      requires Consistent(initial)
      ensures Valid() && table == initial
    {
      table := initial;
    }

    /** The VALUES list of the upsert: the add rows, then the update rows,
        each tagged with the seller. */
    static method InsertValues(sellerId: nat, toAdd: seq<Product>, toUpdate: seq<Product>)
      returns (values: seq<SellerProduct>)
      ensures values == Tagged(sellerId, toAdd + toUpdate)
    {
      values := [];
      for i := 0 to |toAdd|
        invariant values == Tagged(sellerId, toAdd[..i])
      {
        assert toAdd[..i + 1][..i] == toAdd[..i];
        values := values + [SellerProduct(sellerId, toAdd[i])];
      }
      assert toAdd[..|toAdd|] == toAdd;
      for i := 0 to |toUpdate|
        invariant values == Tagged(sellerId, toAdd + toUpdate[..i])
      {
        assert (toAdd + toUpdate[..i + 1])[..|toAdd| + i] == toAdd + toUpdate[..i];
        values := values + [SellerProduct(sellerId, toUpdate[i])];
      }
      assert toUpdate[..|toUpdate|] == toUpdate;
    }

    /** The id list of the delete's IN clause. */
    static method DeleteIds(toDelete: seq<Product>) returns (ids: seq<nat>)
      ensures ids == OfferIds(toDelete)
    {
      ids := [];
      for i := 0 to |toDelete|
        invariant ids == OfferIds(toDelete[..i])
      {
        assert toDelete[..i + 1][..i] == toDelete[..i];
        ids := ids + [toDelete[i].offerId];
      }
      assert toDelete[..|toDelete|] == toDelete;
    }

    /** The database running the upsert inside the transaction: a tuple
        whose key an earlier tuple of the same statement used is an error. */
    static method ExecUpsert(tx: Table, values: seq<SellerProduct>) returns (r: Result<Table, RepoError>)
      ensures r == if RepeatedKey(values) then Err(ErrQueryExecFailed) else Ok(Upserted(tx, values))
    {
      var t := tx;
      var seen: set<Key> := {};
      for i := 0 to |values|
        invariant t == Upserted(tx, values[..i])
        invariant seen == set j | 0 <= j < i :: values[j].RowKey()
        invariant !RepeatedKey(values[..i])
      {
        if values[i].RowKey() in seen {
          var j :| 0 <= j < i && values[j].RowKey() == values[i].RowKey();
          assert RepeatedKey(values);
          return Err(ErrQueryExecFailed);
        }
        UpsertedStep(tx, values, i);
        ghost var upTo := values[..i + 1];
        forall a, b | 0 <= a < b < i + 1
          ensures upTo[a].RowKey() != upTo[b].RowKey()
        {
          if b < i {
            assert values[..i][a] == values[a] && values[..i][b] == values[b];
          }
        }
        t := t[values[i].RowKey() := values[i].product];
        seen := seen + {values[i].RowKey()};
      }
      assert values[..|values|] == values;
      return Ok(t);
    }

    /** The database running the delete inside the transaction: the rows it
        removes and how many. */
    static method ExecDelete(tx: Table, sellerId: nat, ids: seq<nat>) returns (t: Table, affected: nat)
      ensures t == DeleteWhere(tx, sellerId, ids) && affected == DeletedCount(tx, sellerId, ids)
    {
      t, affected := tx, 0;
      DeleteNothing(tx, sellerId, ids[..0]);
      for i := 0 to |ids|
        invariant t == DeleteWhere(tx, sellerId, ids[..i])
        invariant affected == DeletedCount(tx, sellerId, ids[..i])
      {
        var k := Key(sellerId, ids[i]);
        DeleteStep(tx, sellerId, ids, i);
        DeleteCountStep(tx, sellerId, ids, i);
        if k in t {
          t := t - {k};
          affected := affected + 1;
        }
      }
      assert ids[..|ids|] == ids;
    }

    /** ManageProducts: one transaction that upserts the add and update
        rows and deletes the listed offers of the seller. The statements
        run on the transaction's view `tx` of the table, which replaces the
        table only at COMMIT; every failure leaves it as it was. */
    method ManageProducts(sellerId: nat, toAdd: seq<Product>, toDelete: seq<Product>,
                          toUpdate: seq<Product>, fault: Fault)
      returns (deleted: nat, err: Option<RepoError>)
      requires Valid()
      modifies this
      ensures Valid()
      ensures var o := Managed(old(table), sellerId, toAdd, toDelete, toUpdate, fault);
              && (o.Committed? ==> table == o.table && deleted == o.deleted && err == None)
              && (o.Aborted? ==> table == old(table) && deleted == 0 && err == Some(o.err))
    {
      if |toAdd| + |toUpdate| + |toDelete| == 0 {
        assert Managed(table, sellerId, toAdd, toDelete, toUpdate, fault) == Aborted(ErrEmptyRequest);
        return 0, Some(ErrEmptyRequest);
      }
      if fault == BeginFails {
        assert Managed(table, sellerId, toAdd, toDelete, toUpdate, fault) == Aborted(ErrTxFailed);
        return 0, Some(ErrTxFailed);
      }
      var tx := table;
      if |toAdd| + |toUpdate| > 0 {
        var values := InsertValues(sellerId, toAdd, toUpdate);
        if fault == InsertBuildFails {
          assert UpsertPhase(table, sellerId, toAdd, toUpdate, fault) == Err(ErrQueryBuilderFailed);
          assert Managed(table, sellerId, toAdd, toDelete, toUpdate, fault) == Aborted(ErrQueryBuilderFailed);
          return 0, Some(ErrQueryBuilderFailed);
        }
        if fault == InsertExecFails {
          assert UpsertPhase(table, sellerId, toAdd, toUpdate, fault) == Err(ErrQueryExecFailed);
          assert Managed(table, sellerId, toAdd, toDelete, toUpdate, fault) == Aborted(ErrQueryExecFailed);
          return 0, Some(ErrQueryExecFailed);
        }
        var up := ExecUpsert(tx, values);
        if up.Err? || fault == InsertResultFails {
          assert UpsertPhase(table, sellerId, toAdd, toUpdate, fault) == Err(ErrQueryExecFailed);
          assert Managed(table, sellerId, toAdd, toDelete, toUpdate, fault) == Aborted(ErrQueryExecFailed);
          return 0, Some(ErrQueryExecFailed);
        }
        tx := up.value;
      }
      assert UpsertPhase(table, sellerId, toAdd, toUpdate, fault) == Ok(tx);
      ghost var upserted := tx;
      var affected := 0;
      if |toDelete| > 0 {
        var ids := DeleteIds(toDelete);
        if fault == DeleteBuildFails {
          assert DeletePhase(upserted, sellerId, toDelete, fault) == Err(ErrQueryBuilderFailed);
          assert Managed(table, sellerId, toAdd, toDelete, toUpdate, fault) == Aborted(ErrQueryBuilderFailed);
          return 0, Some(ErrQueryBuilderFailed);
        }
        if fault == DeleteExecFails {
          assert DeletePhase(upserted, sellerId, toDelete, fault) == Err(ErrQueryExecFailed);
          assert Managed(table, sellerId, toAdd, toDelete, toUpdate, fault) == Aborted(ErrQueryExecFailed);
          return 0, Some(ErrQueryExecFailed);
        }
        tx, affected := ExecDelete(tx, sellerId, ids);
        if fault == DeleteResultFails {
          assert DeletePhase(upserted, sellerId, toDelete, fault) == Err(ErrQueryExecFailed);
          assert Managed(table, sellerId, toAdd, toDelete, toUpdate, fault) == Aborted(ErrQueryExecFailed);
          return 0, Some(ErrQueryExecFailed);
        }
      }
      assert DeletePhase(upserted, sellerId, toDelete, fault) == Ok(Deletion(tx, affected));
      if fault == CommitFails {
        assert Managed(table, sellerId, toAdd, toDelete, toUpdate, fault) == Aborted(ErrTxFailed);
        return 0, Some(ErrTxFailed);
      }
      assert Managed(table, sellerId, toAdd, toDelete, toUpdate, fault) == Committed(tx, affected);
      ManagedConsistent(table, sellerId, toAdd, toDelete, toUpdate, fault);
      table := tx;
      deleted, err := affected, None;
    }

    /** ProductsByFilter: the first 100 rows, in the database's scan order,
        that match the filter. */
    function ProductsByFilter(f: RequestFilter, scan: seq<Key>, like: (string, string) -> bool,
                              fault: SelectFault): (r: Result<seq<Product>, RepoError>)
      reads this
      requires ScanOrder(scan, table)
      ensures fault == SelectBuildFails ==> r == Err(ErrQueryBuilderFailed)
      ensures fault == SelectExecFails ==> r == Err(ErrQueryExecFailed)
      ensures r.Ok? ==> |r.value| <= DefaultLimit
      ensures r.Ok? ==> forall i :: 0 <= i < |r.value| ==>
                exists k :: k in table && Matches(f, k, table[k], like) && r.value[i] == table[k]
    {
      if fault == SelectBuildFails then Err(ErrQueryBuilderFailed)
      else if fault == SelectExecFails then Err(ErrQueryExecFailed)
      else Ok(RowsOf(table, Selected(table, scan, f, like, DefaultLimit)))
    }
  }

  /** The stored products under `keys`, in order. */
  function RowsOf(t: Table, keys: seq<Key>): (rows: seq<Product>)
    requires forall k :: k in keys ==> k in t
    ensures |rows| == |keys| && forall i :: 0 <= i < |keys| ==> rows[i] == t[keys[i]]
  {
    if keys == [] then [] else RowsOf(t, keys[..|keys| - 1]) + [t[keys[|keys| - 1]]]
  }
}
