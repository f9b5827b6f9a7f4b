/** internal/service: UpdateProducts turns the parsed sheet of one seller
    into the three lists the repository applies in one transaction, and
    reports what it did. The shown service bodies are stubs; the behaviour
    here is the one service_test.go pins down. */
module Service {
  import opened GoStd
  import opened Models
  import opened Repository

  // ---------------------------------------------------------------------
  // contains: binary search over the seller's sorted offer ids

  predicate Sorted(s: seq<nat>)
  {
    forall i, j :: 0 <= i < j < |s| ==> s[i] <= s[j]
  }

  /** Binary search of `x` in `s[lo..hi]`. Whatever the order of `s`, a
      hit is a real occurrence. */
  function Search(s: seq<nat>, x: nat, lo: nat, hi: nat): (found: bool)
    requires lo <= hi <= |s|
    ensures found ==> x in s[lo..hi]
    decreases hi - lo
  {
    if lo == hi then false
    else
      var mid := (lo + hi) / 2;
      if s[mid] == x then true
      else if s[mid] < x then Search(s, x, mid + 1, hi)
      else Search(s, x, lo, mid)
  }

  /** contains: whether `x` is one of the ids. */
  function Contains(s: seq<nat>, x: nat): (found: bool)
    ensures found ==> x in s
  {
    assert s[0..|s|] == s;
    Search(s, x, 0, |s|)
  }

  /** On sorted ids the search misses nothing. */
  lemma {:induction false} SearchComplete(s: seq<nat>, x: nat, lo: nat, hi: nat)
    requires Sorted(s) && lo <= hi <= |s|
    requires x in s[lo..hi]
    ensures Search(s, x, lo, hi)
    decreases hi - lo
  {
    var i :| lo <= i < hi && s[i] == x;
    var mid := (lo + hi) / 2;
    if s[mid] < x {
      assert mid < i;
      assert s[mid + 1..hi][i - mid - 1] == x;
      SearchComplete(s, x, mid + 1, hi);
    } else if s[mid] > x {
      assert i < mid;
      assert s[lo..mid][i - lo] == x;
      SearchComplete(s, x, lo, mid);
    }
  }

  /** contains is exact on sorted ids: the first, middle and last ids are
      found, and a value in a gap, below the least or above the greatest
      id is not. */
  lemma ContainsSorted(s: seq<nat>, x: nat)
    requires Sorted(s)
    ensures Contains(s, x) <==> x in s
  {
    if x in s {
      assert s[0..|s|] == s;
      SearchComplete(s, x, 0, |s|);
    }
  }

  // ---------------------------------------------------------------------
  // Splitting the updates into add, update and delete lists

  /** The list an update goes to. */
  datatype Destination = AddTo | UpdateTo | DeleteTo

  /** An unavailable product is deleted; an available one is updated when
      the seller already has its offer id, else added. */
  function DestinationOf(u: ProductUpdate, existing: seq<nat>): Destination
  {
    if !u.available then DeleteTo
    else if Contains(existing, u.product.offerId) then UpdateTo
    else AddTo
  }

  /** The products of the updates sent to `d`, in input order. */
  function Pick(updates: seq<ProductUpdate>, existing: seq<nat>, d: Destination): seq<Product>
  {
    if updates == [] then []
    else
      var n := |updates| - 1;
      Pick(updates[..n], existing, d) + (if DestinationOf(updates[n], existing) == d then [updates[n].product] else [])
  }

  lemma PickStep(updates: seq<ProductUpdate>, existing: seq<nat>, d: Destination, i: nat)
    requires i < |updates|
    ensures Pick(updates[..i + 1], existing, d) ==
            Pick(updates[..i], existing, d) + (if DestinationOf(updates[i], existing) == d then [updates[i].product] else [])
  {
    assert updates[..i + 1][..i] == updates[..i];
  }

  /** With the seller's ids sorted, the destination is the one the service
      promises: delete when unavailable, update when the offer id exists,
      add otherwise. */
  lemma DestinationSorted(u: ProductUpdate, existing: seq<nat>)
    requires Sorted(existing)
    ensures DestinationOf(u, existing) == DeleteTo <==> !u.available
    ensures DestinationOf(u, existing) == UpdateTo <==> u.available && u.product.offerId in existing
    ensures DestinationOf(u, existing) == AddTo <==> u.available && u.product.offerId !in existing
  {
    ContainsSorted(existing, u.product.offerId);
  }

  /** Splitting keeps the input order: the lists of a concatenation are the
      concatenated lists. */
  lemma {:induction false} PickAppend(a: seq<ProductUpdate>, b: seq<ProductUpdate>, existing: seq<nat>, d: Destination)
    ensures Pick(a + b, existing, d) == Pick(a, existing, d) + Pick(b, existing, d)
    decreases |b|
  {
    if b == [] {
      assert a + b == a;
    } else {
      var n := |b| - 1;
      var ab := a + b;
      assert ab[..|a| + n] == a + b[..n];
      assert ab[|a| + n] == b[n];
      assert ab[..|a| + n + 1] == ab;
      PickStep(ab, existing, d, |a| + n);
      PickStep(b, existing, d, n);
      assert b[..n + 1] == b;
      PickAppend(a, b[..n], existing, d);
    }
  }

  /** Every update lands in exactly one list. */
  lemma {:induction false} PickCounts(updates: seq<ProductUpdate>, existing: seq<nat>)
    ensures |Pick(updates, existing, AddTo)| + |Pick(updates, existing, UpdateTo)| +
            |Pick(updates, existing, DeleteTo)| == |updates|
  {
    if updates != [] {
      PickCounts(updates[..|updates| - 1], existing);
    }
  }

  /** A product is in a list exactly when some update carrying it is sent
      there. */
  lemma {:induction false} PickMembers(updates: seq<ProductUpdate>, existing: seq<nat>, d: Destination, p: Product)
    ensures p in Pick(updates, existing, d) <==>
            exists i :: 0 <= i < |updates| && updates[i].product == p && DestinationOf(updates[i], existing) == d
  {
    if updates != [] {
      var n := |updates| - 1;
      PickMembers(updates[..n], existing, d, p);
      if p in Pick(updates[..n], existing, d) {
        var i :| 0 <= i < n && updates[..n][i].product == p && DestinationOf(updates[..n][i], existing) == d;
        assert updates[i] == updates[..n][i];
      }
      if i :| 0 <= i < |updates| && updates[i].product == p && DestinationOf(updates[i], existing) == d {
        if i < n {
          assert updates[..n][i] == updates[i];
        }
      }
    }
  }

  // ---------------------------------------------------------------------
  // Dropping products whose name is too long

  /** The products that pass Validate, in order. */
  function Valids(ps: seq<Product>): seq<Product>
  {
    if ps == [] then []
    else
      var n := |ps| - 1;
      Valids(ps[..n]) + (if Validate(ps[n]).None? then [ps[n]] else [])
  }

  /** The validation errors of the products that fail, in order. */
  function Rejections(ps: seq<Product>): seq<ValidationError>
  {
    if ps == [] then []
    else
      var n := |ps| - 1;
      Rejections(ps[..n]) + (if Validate(ps[n]).Some? then [Validate(ps[n]).value] else [])
  }

  lemma ValidsStep(ps: seq<Product>, i: nat)
    requires i < |ps|
    ensures Valids(ps[..i + 1]) == Valids(ps[..i]) + (if Validate(ps[i]).None? then [ps[i]] else [])
    ensures Rejections(ps[..i + 1]) == Rejections(ps[..i]) + (if Validate(ps[i]).Some? then [Validate(ps[i]).value] else [])
  {
    assert ps[..i + 1][..i] == ps[..i];
  }

  /** A product is kept exactly when it is listed and its name has at most
      100 runes; each product is either kept or reported. */
  lemma {:induction false} ValidsMembers(ps: seq<Product>)
    ensures forall p :: p in Valids(ps) <==> p in ps && |p.name| <= MaxNameRunes
    ensures |Valids(ps)| + |Rejections(ps)| == |ps|
  {
    if ps != [] {
      var n := |ps| - 1;
      ValidsMembers(ps[..n]);
      assert ps == ps[..n] + [ps[n]];
    }
  }

  /** Each reported error names a listed product whose name is too long,
      with field "name" and message "too long name". */
  lemma {:induction false} RejectionsReport(ps: seq<Product>)
    ensures forall e :: e in Rejections(ps) ==>
              exists p :: p in ps && |p.name| > MaxNameRunes && e == ErrProductValidation(p.offerId, NameField, TooLongName)
    ensures forall p :: p in ps && |p.name| > MaxNameRunes ==>
              ErrProductValidation(p.offerId, NameField, TooLongName) in Rejections(ps)
  {
    if ps != [] {
      var n := |ps| - 1;
      RejectionsReport(ps[..n]);
      assert ps == ps[..n] + [ps[n]];
    }
  }

  // ---------------------------------------------------------------------
  // UpdateProducts

  /** What UpdateProducts hands to the repository and reports. */
  datatype Plan = Plan(toAdd: seq<Product>, toUpdate: seq<Product>, toDelete: seq<Product>,
                       errors: seq<ValidationError>)

  /** The split followed by validation of the add and update lists; the
      add list's errors come first. Products to delete are not validated. */
  function MakePlan(updates: seq<ProductUpdate>, existing: seq<nat>): Plan
  {
    var adds := Pick(updates, existing, AddTo);
    var upds := Pick(updates, existing, UpdateTo);
    Plan(Valids(adds), Valids(upds), Pick(updates, existing, DeleteTo), Rejections(adds) + Rejections(upds))
  }

  /** Every update is accounted for once: added, updated, deleted or
      reported. */
  lemma PlanAccounts(updates: seq<ProductUpdate>, existing: seq<nat>)
    ensures var plan := MakePlan(updates, existing);
            |plan.toAdd| + |plan.toUpdate| + |plan.toDelete| + |plan.errors| == |updates|
  {
    PickCounts(updates, existing);
    ValidsMembers(Pick(updates, existing, AddTo));
    ValidsMembers(Pick(updates, existing, UpdateTo));
  }

  /** What UpdateProducts reports: how many products were added, updated
      and deleted, and the products it refused. */
  datatype UpdateResults = UpdateResults(added: nat, updated: nat, deleted: nat, errors: seq<ValidationError>)

  /** An empty request, or the repository's error. */
  datatype ServiceError = EmptyRequest | Storage(cause: RepoError)

  /** UpdateProducts as a function of the table before the call. */
  function Updated(t: Table, sellerId: nat, updates: seq<ProductUpdate>, existing: seq<nat>, fault: Fault)
    : Result<UpdateResults, ServiceError>
  {
    if updates == [] then Err(EmptyRequest)
    else
      var plan := MakePlan(updates, existing);
      if |plan.toAdd| + |plan.toUpdate| + |plan.toDelete| == 0 then Ok(UpdateResults(0, 0, 0, plan.errors))
      else
        match Managed(t, sellerId, plan.toAdd, plan.toDelete, plan.toUpdate, fault)
        case Aborted(e) => Err(Storage(e))
        case Committed(_, deleted) => Ok(UpdateResults(|plan.toAdd|, |plan.toUpdate|, deleted, plan.errors))
  }

  /** The table UpdateProducts leaves: the committed one, or the one it
      found when it did not reach the repository or the transaction was
      rolled back. */
  function StoredAfter(t: Table, sellerId: nat, updates: seq<ProductUpdate>, existing: seq<nat>, fault: Fault): Table
  {
    var plan := MakePlan(updates, existing);
    if updates == [] || |plan.toAdd| + |plan.toUpdate| + |plan.toDelete| == 0 then t
    else
      match Managed(t, sellerId, plan.toAdd, plan.toDelete, plan.toUpdate, fault)
      case Aborted(_) => t
      case Committed(t2, _) => t2
  }

  /** The service holds the repository it writes to. */
  class ProductService {
    const repo: Repository

    constructor(repo: Repository)
      ensures this.repo == repo
    {
      this.repo := repo;
    }

    /** The three lists, built by one walk over the updates. */
    static method Classify(updates: seq<ProductUpdate>, existing: seq<nat>)
      returns (toAdd: seq<Product>, toUpdate: seq<Product>, toDelete: seq<Product>)
      ensures toAdd == Pick(updates, existing, AddTo)
      ensures toUpdate == Pick(updates, existing, UpdateTo)
      ensures toDelete == Pick(updates, existing, DeleteTo)
    {
      toAdd, toUpdate, toDelete := [], [], [];
      for i := 0 to |updates|
        invariant toAdd == Pick(updates[..i], existing, AddTo)
        invariant toUpdate == Pick(updates[..i], existing, UpdateTo)
        invariant toDelete == Pick(updates[..i], existing, DeleteTo)
      {
        PickStep(updates, existing, AddTo, i);
        PickStep(updates, existing, UpdateTo, i);
        PickStep(updates, existing, DeleteTo, i);
        var u := updates[i];
        if !u.available {
          toDelete := toDelete + [u.product];
        } else if Contains(existing, u.product.offerId) {
          toUpdate := toUpdate + [u.product];
        } else {
          toAdd := toAdd + [u.product];
        }
      }
      assert updates[..|updates|] == updates;
    }

    /** The valid products of a list and the errors of the others. */
    static method DropInvalid(ps: seq<Product>) returns (valid: seq<Product>, errs: seq<ValidationError>)
      ensures valid == Valids(ps) && errs == Rejections(ps)
    {
      valid, errs := [], [];
      for i := 0 to |ps|
        invariant valid == Valids(ps[..i]) && errs == Rejections(ps[..i])
      {
        ValidsStep(ps, i);
        var e := Validate(ps[i]);
        if e.Some? {
          errs := errs + [e.value];
        } else {
          valid := valid + [ps[i]];
        }
      }
      assert ps[..|ps|] == ps;
    }

    /** UpdateProducts: an empty request is refused before the repository
        is asked anything; a request whose every product is refused is
        answered without a transaction; otherwise the lists go to
        ManageProducts in one transaction. `existing` is what
        SellerProductIDs returns for the seller: its stored offer ids in
        ascending order. */
    method UpdateProducts(sellerId: nat, updates: seq<ProductUpdate>, existing: seq<nat>, fault: Fault)
      returns (r: Result<UpdateResults, ServiceError>)
      requires repo.Valid()
      requires Sorted(existing) && forall id :: id in existing <==> Key(sellerId, id) in repo.table
      modifies repo
      ensures repo.Valid()
      ensures r == Updated(old(repo.table), sellerId, updates, existing, fault)
      ensures repo.table == StoredAfter(old(repo.table), sellerId, updates, existing, fault)
    {
      if |updates| == 0 {
        return Err(EmptyRequest);
      }
      var adds, upds, toDelete := Classify(updates, existing);
      var toAdd, addErrs := DropInvalid(adds);
      var toUpdate, updErrs := DropInvalid(upds);
      var errs := addErrs + updErrs;
      if |toAdd| + |toUpdate| + |toDelete| == 0 {
        return Ok(UpdateResults(0, 0, 0, errs));
      }
      var deleted, err := repo.ManageProducts(sellerId, toAdd, toDelete, toUpdate, fault);
      if err.Some? {
        return Err(Storage(err.value));
      }
      return Ok(UpdateResults(|toAdd|, |toUpdate|, deleted, errs));
    }
  }

  /** A successful call reports the sizes of the add and update lists it
      sent, accounts for every update once, and reports at most one deleted
      row per product listed for deletion. */
  lemma UpdatedReports(t: Table, sellerId: nat, updates: seq<ProductUpdate>, existing: seq<nat>, fault: Fault)
    requires Updated(t, sellerId, updates, existing, fault).Ok?
    ensures var res := Updated(t, sellerId, updates, existing, fault).value;
            var plan := MakePlan(updates, existing);
            && res.added == |plan.toAdd| && res.updated == |plan.toUpdate|
            && res.added + res.updated + |plan.toDelete| + |res.errors| == |updates|
            && res.deleted <= |plan.toDelete|
  {
    var plan := MakePlan(updates, existing);
    PlanAccounts(updates, existing);
    if |plan.toAdd| + |plan.toUpdate| + |plan.toDelete| > 0 {
      ManagedDeletes(t, sellerId, plan.toAdd, plan.toDelete, plan.toUpdate, fault);
    }
  }

  /** A call that fails leaves the table as it was. */
  lemma UpdatedKeeps(t: Table, sellerId: nat, updates: seq<ProductUpdate>, existing: seq<nat>, fault: Fault)
    ensures Updated(t, sellerId, updates, existing, fault).Err? ==> StoredAfter(t, sellerId, updates, existing, fault) == t
  {
  }

  /** After a successful call the table holds each available product whose
      name has at most 100 runes, under (seller, offer id), unless the same
      request also asks to delete that offer id. */
  lemma UpdatedStores(t: Table, sellerId: nat, updates: seq<ProductUpdate>, existing: seq<nat>, fault: Fault, i: nat)
    requires Updated(t, sellerId, updates, existing, fault).Ok?
    requires i < |updates| && updates[i].available && |updates[i].product.name| <= MaxNameRunes
    requires forall j :: 0 <= j < |updates| && !updates[j].available ==>
               updates[j].product.offerId != updates[i].product.offerId
    ensures var t2 := StoredAfter(t, sellerId, updates, existing, fault);
            var p := updates[i].product;
            Key(sellerId, p.offerId) in t2 && t2[Key(sellerId, p.offerId)] == p
  {
    var plan := MakePlan(updates, existing);
    var p := updates[i].product;
    var d := DestinationOf(updates[i], existing);
    PickMembers(updates, existing, d, p);
    ValidsMembers(Pick(updates, existing, d));
    assert p in plan.toAdd + plan.toUpdate;
    forall q | q in plan.toDelete ensures q.offerId != p.offerId {
      PickMembers(updates, existing, DeleteTo, q);
    }
    forall k | 0 <= k < |plan.toDelete| ensures OfferIds(plan.toDelete)[k] != p.offerId {
      assert plan.toDelete[k] in plan.toDelete;
    }
    ManagedStores(t, sellerId, plan.toAdd, plan.toDelete, plan.toUpdate, fault, p);
  }
}
